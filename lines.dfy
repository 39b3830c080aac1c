/**
 * The line sequence of the gotex buffer (internal/buffer/buffer.go) as a value:
 * which positions are valid in it, the text it stands for (its lines joined by
 * line separators), and the three splices the buffer's edits perform on it.
 *
 * A line is a `seq<char>` in which each element is one column unit. The Go
 * source measures and slices lines in bytes (`len(line)`, `line[:x]`) but
 * advances the cursor by one per inserted rune; the two agree when every
 * character is a single byte (ASCII), which is what this model assumes.
 */
module Lines {
  import opened Positions

  type Line = seq<char>

  /** The lines joined by line separators, with no trailing separator. */
  function Join(ls: seq<Line>): seq<char>
    requires |ls| >= 1
  {
    if |ls| == 1 then ls[0] else ls[0] + "\n" + Join(ls[1..])
  }

  /** The lines, each followed by a line separator. */
  function Terminated(ls: seq<Line>): seq<char>
  {
    if |ls| == 0 then [] else ls[0] + "\n" + Terminated(ls[1..])
  }

  /**
   * A position the buffer accepts: an existing row, and a column from 0 up to
   * and including the length of that row (the caret after its last character).
   */
  predicate ValidPosition(ls: seq<Line>, p: Position)
  {
    0 <= p.Y < |ls| && 0 <= p.X <= |ls[p.Y]|
  }

  /** The caret offset of a valid position in the joined text. */
  function Offset(ls: seq<Line>, p: Position): nat
    requires ValidPosition(ls, p)
  {
    |Terminated(ls[..p.Y])| + p.X
  }

  /** The joined text between two ordered valid positions. */
  function Span(ls: seq<Line>, s: Position, e: Position): seq<char>
    requires ValidPosition(ls, s) && ValidPosition(ls, e) && AtOrBefore(s, e)
  {
    OffsetOrder(ls, s, e);
    OffsetBound(ls, e);
    Join(ls)[Offset(ls, s)..Offset(ls, e)]
  }

  /** InsertRune's splice: character `c` put into row `p.Y` at column `p.X`. */
  function InsertAt(ls: seq<Line>, p: Position, c: char): seq<Line>
    requires ValidPosition(ls, p)
  {
    ls[p.Y := ls[p.Y][..p.X] + [c] + ls[p.Y][p.X..]]
  }

  /** NewLine's splice: row `p.Y` cut at column `p.X` into two rows. */
  function SplitAt(ls: seq<Line>, p: Position): seq<Line>
    requires ValidPosition(ls, p)
  {
    ls[..p.Y] + [ls[p.Y][..p.X], ls[p.Y][p.X..]] + ls[p.Y + 1..]
  }

  /**
   * DeleteSelection's splice: rows `s.Y` to `e.Y` replaced by one row made of
   * the text before `s` on row `s.Y` and the text from `e` on row `e.Y`.
   */
  function DeleteRange(ls: seq<Line>, s: Position, e: Position): seq<Line>
    requires ValidPosition(ls, s) && ValidPosition(ls, e) && AtOrBefore(s, e)
  {
    ls[..s.Y] + [ls[s.Y][..s.X] + ls[e.Y][e.X..]] + ls[e.Y + 1..]
  }

  // ---------------------------------------------------------------------
  // The joined text and caret offsets

  lemma {:induction false} TerminatedAppend(a: seq<Line>, b: seq<Line>)
    ensures Terminated(a + b) == Terminated(a) + Terminated(b)
  {
    if |a| == 0 {
      assert a + b == b;
    } else {
      assert (a + b)[1..] == a[1..] + b;
      TerminatedAppend(a[1..], b);
    }
  }

  lemma TerminatedFrom(ls: seq<Line>, y: int)
    requires 0 <= y < |ls|
    ensures Terminated(ls[y..]) == ls[y] + "\n" + Terminated(ls[y + 1..])
  {
    assert ls[y..][1..] == ls[y + 1..];
  }

  lemma TerminatedCut(ls: seq<Line>, y: int)
    requires 0 <= y <= |ls|
    ensures Terminated(ls) == Terminated(ls[..y]) + Terminated(ls[y..])
  {
    assert ls == ls[..y] + ls[y..];
    TerminatedAppend(ls[..y], ls[y..]);
  }

  lemma Reassociate(a: seq<char>, line: seq<char>, c: seq<char>)
    ensures a + (line + "\n" + c) == a + line + ("\n" + c)
  {
  }

  /** The terminated text seen around one of its rows. */
  lemma TerminatedAround(ls: seq<Line>, y: int)
    requires 0 <= y < |ls|
    ensures Terminated(ls) == Terminated(ls[..y]) + ls[y] + ("\n" + Terminated(ls[y + 1..]))
  {
    TerminatedFrom(ls, y);
    TerminatedCut(ls, y);
    Reassociate(Terminated(ls[..y]), ls[y], Terminated(ls[y + 1..]));
  }

  lemma {:induction false} JoinTerminated(ls: seq<Line>)
    requires |ls| >= 1
    ensures Terminated(ls) == Join(ls) + "\n"
  {
    if |ls| > 1 {
      JoinTerminated(ls[1..]);
    } else {
      assert ls[1..] == [];
    }
  }

  /** Every valid position is a caret offset inside the joined text. */
  lemma OffsetBound(ls: seq<Line>, p: Position)
    requires ValidPosition(ls, p)
    ensures Offset(ls, p) <= |Join(ls)| < |Terminated(ls)|
  {
    TerminatedAround(ls, p.Y);
    JoinTerminated(ls);
  }

  /** A position on an earlier row has a smaller offset. */
  lemma RowOffsetGap(ls: seq<Line>, p: Position, q: Position)
    requires ValidPosition(ls, p) && ValidPosition(ls, q) && p.Y < q.Y
    ensures Offset(ls, p) < Offset(ls, q)
  {
    var pre := ls[..q.Y];
    TerminatedAround(pre, p.Y);
    assert pre[..p.Y] == ls[..p.Y];
  }

  /**
   * Row-major order on valid positions is the order of their offsets, so
   * distinct valid positions are distinct carets of the joined text.
   */
  lemma OffsetOrder(ls: seq<Line>, p: Position, q: Position)
    requires ValidPosition(ls, p) && ValidPosition(ls, q)
    ensures Before(p, q) <==> Offset(ls, p) < Offset(ls, q)
    ensures p == q <==> Offset(ls, p) == Offset(ls, q)
  {
    if p.Y < q.Y {
      RowOffsetGap(ls, p, q);
    } else if q.Y < p.Y {
      RowOffsetGap(ls, q, p);
    }
  }

  /**
   * The valid position at a caret offset: with OffsetOrder, valid positions
   * and the carets 0 .. |Join(ls)| of the joined text correspond one to one.
   */
  function PositionAt(ls: seq<Line>, k: int): (p: Position)
    requires |ls| >= 1 && 0 <= k <= |Join(ls)|
    ensures ValidPosition(ls, p) && Offset(ls, p) == k
    decreases |ls|
  {
    if k <= |ls[0]| then
      assert ls[..0] == [];
      Position(k, 0)
    else
      var q := PositionAt(ls[1..], k - |ls[0]| - 1);
      assert ls[..q.Y + 1] == [ls[0]] + ls[1..][..q.Y];
      assert ([ls[0]] + ls[1..][..q.Y])[1..] == ls[1..][..q.Y];
      Position(q.X, q.Y + 1)
  }

  // ---------------------------------------------------------------------
  // The edits as splices of the joined text

  /** Replacing `line` by `line[..x] + m + line[x..]` inside `a + line + b` is a splice of the whole at `k`. */
  lemma SpliceInLine(t: seq<char>, t': seq<char>, a: seq<char>, line: seq<char>, b: seq<char>,
                     x: int, k: int, m: seq<char>)
    requires 0 <= x <= |line| && k == |a| + x
    requires t == a + line + b && t' == a + (line[..x] + m + line[x..]) + b
    ensures k <= |t| && t' == t[..k] + m + t[k..]
  {
    assert t[..k] == a + line[..x];
    assert t[k..] == line[x..] + b;
  }

  /** Cutting `line[x..y]` out of `a + line + b` is a cut of the whole from `i` to `j`. */
  lemma CutInLine(t: seq<char>, t': seq<char>, a: seq<char>, line: seq<char>, b: seq<char>,
                  x: int, y: int, i: int, j: int)
    requires 0 <= x <= y <= |line| && i == |a| + x && j == |a| + y
    requires t == a + line + b && t' == a + (line[..x] + line[y..]) + b
    ensures i <= j <= |t| && t' == t[..i] + t[j..]
  {
    assert t[..i] == a + line[..x];
    assert t[j..] == line[y..] + b;
  }

  /** Cutting from column x of `left` to column y of `right` is a cut of the whole from `i` to `j`. */
  lemma CutAcross(t: seq<char>, t': seq<char>, a: seq<char>, left: seq<char>, mid: seq<char>,
                  right: seq<char>, b: seq<char>, x: int, y: int, i: int, j: int)
    requires 0 <= x <= |left| && 0 <= y <= |right|
    requires i == |a| + x && j == |a| + |left| + |mid| + y
    requires t == a + left + mid + right + b && t' == a + (left[..x] + right[y..]) + b
    ensures i <= j <= |t| && t' == t[..i] + t[j..]
  {
    assert t[..i] == a + left[..x];
    assert t[j..] == right[y..] + b;
  }

  /** A splice before the final separator is the same splice once that separator is dropped. */
  lemma SpliceJoin(t: seq<char>, u: seq<char>, t': seq<char>, u': seq<char>, i: int, j: int, m: seq<char>)
    requires t == u + "\n" && t' == u' + "\n"
    requires 0 <= i <= j <= |u|
    requires t' == t[..i] + m + t[j..]
    ensures u' == u[..i] + m + u[j..]
  {
    assert t[..i] == u[..i];
    assert t[j..] == u[j..] + "\n";
    var v := u[..i] + m + u[j..];
    assert u' + "\n" == v + "\n";
    assert u' == (u' + "\n")[..|u'|] == (v + "\n")[..|v|] == v;
  }

  /** The terminated text after one row is replaced. */
  lemma TerminatedReplaceRow(ls: seq<Line>, y: int, row: Line)
    requires 0 <= y < |ls|
    ensures Terminated(ls[y := row]) == Terminated(ls[..y]) + row + ("\n" + Terminated(ls[y + 1..]))
  {
    var ls' := ls[y := row];
    TerminatedAround(ls', y);
    assert ls'[..y] == ls[..y];
    assert ls'[y + 1..] == ls[y + 1..];
  }

  /** InsertAt as a splice of the terminated text. */
  lemma InsertAtTerminated(ls: seq<Line>, p: Position, c: char)
    requires ValidPosition(ls, p)
    ensures Offset(ls, p) < |Terminated(ls)|
    ensures var t := Terminated(ls);
      Terminated(InsertAt(ls, p, c)) == t[..Offset(ls, p)] + [c] + t[Offset(ls, p)..]
  {
    OffsetBound(ls, p);
    var line := ls[p.Y];
    var row := line[..p.X] + [c] + line[p.X..];
    assert InsertAt(ls, p, c) == ls[p.Y := row];
    TerminatedAround(ls, p.Y);
    TerminatedReplaceRow(ls, p.Y, row);
    SpliceInLine(Terminated(ls), Terminated(InsertAt(ls, p, c)), Terminated(ls[..p.Y]), line,
                 "\n" + Terminated(ls[p.Y + 1..]), p.X, Offset(ls, p), [c]);
  }

  /** Inserting a character inserts it into the joined text at the caret. */
  lemma InsertAtText(ls: seq<Line>, p: Position, c: char)
    requires ValidPosition(ls, p)
    ensures ValidPosition(InsertAt(ls, p, c), Position(p.X + 1, p.Y))
    ensures Offset(InsertAt(ls, p, c), Position(p.X + 1, p.Y)) == Offset(ls, p) + 1
    ensures Offset(ls, p) <= |Join(ls)|
    ensures Join(InsertAt(ls, p, c)) == Join(ls)[..Offset(ls, p)] + [c] + Join(ls)[Offset(ls, p)..]
  {
    var ls' := InsertAt(ls, p, c);
    assert ls'[..p.Y] == ls[..p.Y];
    OffsetBound(ls, p);
    InsertAtTerminated(ls, p, c);
    JoinTerminated(ls);
    JoinTerminated(ls');
    SpliceJoin(Terminated(ls), Join(ls), Terminated(ls'), Join(ls'), Offset(ls, p), Offset(ls, p), [c]);
  }

  /** The terminated text after a row is split in two. */
  lemma TerminatedSplitRow(ls: seq<Line>, p: Position)
    requires ValidPosition(ls, p)
    ensures var line := ls[p.Y];
      Terminated(SplitAt(ls, p))
        == Terminated(ls[..p.Y]) + (line[..p.X] + "\n" + line[p.X..]) + ("\n" + Terminated(ls[p.Y + 1..]))
  {
    var line, post := ls[p.Y], ls[p.Y + 1..];
    var two := [line[..p.X], line[p.X..]] + post;
    assert SplitAt(ls, p) == ls[..p.Y] + two;
    TerminatedAppend(ls[..p.Y], two);
    assert two[1..] == [line[p.X..]] + post;
    assert two[1..][1..] == post;
  }

  /** SplitAt as a splice of the terminated text. */
  lemma SplitAtTerminated(ls: seq<Line>, p: Position)
    requires ValidPosition(ls, p)
    ensures Offset(ls, p) < |Terminated(ls)|
    ensures var t := Terminated(ls);
      Terminated(SplitAt(ls, p)) == t[..Offset(ls, p)] + "\n" + t[Offset(ls, p)..]
  {
    OffsetBound(ls, p);
    TerminatedAround(ls, p.Y);
    TerminatedSplitRow(ls, p);
    SpliceInLine(Terminated(ls), Terminated(SplitAt(ls, p)), Terminated(ls[..p.Y]), ls[p.Y],
                 "\n" + Terminated(ls[p.Y + 1..]), p.X, Offset(ls, p), "\n");
  }

  /** Splitting a row inserts a line separator into the joined text at the caret. */
  lemma SplitAtText(ls: seq<Line>, p: Position)
    requires ValidPosition(ls, p)
    ensures |SplitAt(ls, p)| == |ls| + 1
    ensures ValidPosition(SplitAt(ls, p), Position(0, p.Y + 1))
    ensures Offset(SplitAt(ls, p), Position(0, p.Y + 1)) == Offset(ls, p) + 1
    ensures Offset(ls, p) <= |Join(ls)|
    ensures Join(SplitAt(ls, p)) == Join(ls)[..Offset(ls, p)] + "\n" + Join(ls)[Offset(ls, p)..]
  {
    var ls' := SplitAt(ls, p);
    var line := ls[p.Y];
    assert ls'[..p.Y + 1] == ls[..p.Y] + [line[..p.X]];
    TerminatedAppend(ls[..p.Y], [line[..p.X]]);
    assert [line[..p.X]][1..] == [];
    OffsetBound(ls, p);
    SplitAtTerminated(ls, p);
    JoinTerminated(ls);
    JoinTerminated(ls');
    SpliceJoin(Terminated(ls), Join(ls), Terminated(ls'), Join(ls'), Offset(ls, p), Offset(ls, p), "\n");
  }

  /** DeleteRange within one row as a cut of the terminated text. */
  lemma DeleteInRowTerminated(ls: seq<Line>, s: Position, e: Position)
    requires ValidPosition(ls, s) && ValidPosition(ls, e) && s.Y == e.Y && s.X <= e.X
    ensures Offset(ls, s) <= Offset(ls, e) < |Terminated(ls)|
    ensures var t := Terminated(ls);
      Terminated(DeleteRange(ls, s, e)) == t[..Offset(ls, s)] + t[Offset(ls, e)..]
  {
    OffsetBound(ls, e);
    var line := ls[s.Y];
    var row := line[..s.X] + line[e.X..];
    assert DeleteRange(ls, s, e) == ls[s.Y := row];
    TerminatedAround(ls, s.Y);
    TerminatedReplaceRow(ls, s.Y, row);
    CutInLine(Terminated(ls), Terminated(DeleteRange(ls, s, e)), Terminated(ls[..s.Y]), line,
              "\n" + Terminated(ls[s.Y + 1..]), s.X, e.X, Offset(ls, s), Offset(ls, e));
  }

  /** The terminated text seen around two of its rows. */
  lemma TerminatedAroundTwo(ls: seq<Line>, i: int, j: int)
    requires 0 <= i < j < |ls|
    ensures Terminated(ls[..j]) == Terminated(ls[..i]) + ls[i] + ("\n" + Terminated(ls[i + 1..j]))
    ensures Terminated(ls) == Terminated(ls[..i]) + ls[i] + ("\n" + Terminated(ls[i + 1..j]))
                              + ls[j] + ("\n" + Terminated(ls[j + 1..]))
  {
    var upto := ls[..j];
    TerminatedAround(upto, i);
    assert upto[..i] == ls[..i];
    assert upto[i + 1..] == ls[i + 1..j];
    TerminatedAround(ls, j);
  }

  /** The terminated text once rows `s.Y` to `e.Y` are merged into one. */
  lemma TerminatedMergeRows(ls: seq<Line>, s: Position, e: Position)
    requires ValidPosition(ls, s) && ValidPosition(ls, e) && s.Y < e.Y
    ensures Terminated(DeleteRange(ls, s, e))
      == Terminated(ls[..s.Y]) + (ls[s.Y][..s.X] + ls[e.Y][e.X..]) + ("\n" + Terminated(ls[e.Y + 1..]))
  {
    var ls' := DeleteRange(ls, s, e);
    TerminatedAround(ls', s.Y);
    assert ls'[..s.Y] == ls[..s.Y];
    assert ls'[s.Y + 1..] == ls[e.Y + 1..];
  }

  /** DeleteRange across rows as a cut of the terminated text. */
  lemma DeleteAcrossRowsTerminated(ls: seq<Line>, s: Position, e: Position)
    requires ValidPosition(ls, s) && ValidPosition(ls, e) && s.Y < e.Y
    ensures Offset(ls, s) <= Offset(ls, e) < |Terminated(ls)|
    ensures var t := Terminated(ls);
      Terminated(DeleteRange(ls, s, e)) == t[..Offset(ls, s)] + t[Offset(ls, e)..]
  {
    RowOffsetGap(ls, s, e);
    OffsetBound(ls, e);
    TerminatedAroundTwo(ls, s.Y, e.Y);
    TerminatedMergeRows(ls, s, e);
    CutAcross(Terminated(ls), Terminated(DeleteRange(ls, s, e)), Terminated(ls[..s.Y]), ls[s.Y],
              "\n" + Terminated(ls[s.Y + 1..e.Y]), ls[e.Y], "\n" + Terminated(ls[e.Y + 1..]), s.X, e.X,
              Offset(ls, s), Offset(ls, e));
  }

  /** DeleteRange as a cut of the terminated text. */
  lemma DeleteRangeTerminated(ls: seq<Line>, s: Position, e: Position)
    requires ValidPosition(ls, s) && ValidPosition(ls, e) && AtOrBefore(s, e)
    ensures Offset(ls, s) <= Offset(ls, e) < |Terminated(ls)|
    ensures var t := Terminated(ls);
      Terminated(DeleteRange(ls, s, e)) == t[..Offset(ls, s)] + t[Offset(ls, e)..]
  {
    if s.Y == e.Y {
      DeleteInRowTerminated(ls, s, e);
    } else {
      DeleteAcrossRowsTerminated(ls, s, e);
    }
  }

  /** The start of a deleted range is still valid, at the same offset. */
  lemma DeleteRangeKeepsStart(ls: seq<Line>, s: Position, e: Position)
    requires ValidPosition(ls, s) && ValidPosition(ls, e) && AtOrBefore(s, e)
    ensures |DeleteRange(ls, s, e)| == |ls| - (e.Y - s.Y)
    ensures ValidPosition(DeleteRange(ls, s, e), s)
    ensures Offset(DeleteRange(ls, s, e), s) == Offset(ls, s)
  {
    assert DeleteRange(ls, s, e)[..s.Y] == ls[..s.Y];
  }

  /**
   * Deleting a range removes exactly the text between its ends from the
   * joined text, and the start of the range stays where it was.
   */
  lemma DeleteRangeText(ls: seq<Line>, s: Position, e: Position)
    requires ValidPosition(ls, s) && ValidPosition(ls, e) && AtOrBefore(s, e)
    ensures |DeleteRange(ls, s, e)| == |ls| - (e.Y - s.Y)
    ensures ValidPosition(DeleteRange(ls, s, e), s)
    ensures Offset(DeleteRange(ls, s, e), s) == Offset(ls, s)
    ensures Offset(ls, s) <= Offset(ls, e) <= |Join(ls)|
    ensures Join(DeleteRange(ls, s, e)) == Join(ls)[..Offset(ls, s)] + Join(ls)[Offset(ls, e)..]
  {
    var ls' := DeleteRange(ls, s, e);
    DeleteRangeKeepsStart(ls, s, e);
    OffsetBound(ls, e);
    DeleteRangeTerminated(ls, s, e);
    JoinTerminated(ls);
    JoinTerminated(ls');
    SpliceJoin(Terminated(ls), Join(ls), Terminated(ls'), Join(ls'), Offset(ls, s), Offset(ls, e), []);
  }

  /** Growing a run of rows by one row appends that row and a separator. */
  lemma TerminatedSnoc(ls: seq<Line>, i: int, j: int)
    requires 0 <= i <= j < |ls|
    ensures Terminated(ls[i..j + 1]) == Terminated(ls[i..j]) + ls[j] + "\n"
  {
    assert ls[i..j + 1] == ls[i..j] + [ls[j]];
    TerminatedAppend(ls[i..j], [ls[j]]);
    assert [ls[j]][1..] == [];
  }

  /** A slice of the joined text taken before its end is the same slice of the terminated text. */
  lemma JoinSlice(ls: seq<Line>, i: int, j: int)
    requires |ls| >= 1 && 0 <= i <= j <= |Join(ls)|
    ensures j <= |Terminated(ls)| && Join(ls)[i..j] == Terminated(ls)[i..j]
  {
    JoinTerminated(ls);
  }

  /** A slice of `a + line + b` inside `line`. */
  lemma SliceInLine(t: seq<char>, a: seq<char>, line: seq<char>, b: seq<char>, x: int, y: int, i: int, j: int)
    requires 0 <= x <= y <= |line| && i == |a| + x && j == |a| + y
    requires t == a + line + b
    ensures j <= |t| && t[i..j] == line[x..y]
  {
  }

  /** A slice of `a + left + mid + right + b` from inside `left` to inside `right`. */
  lemma SliceAcross(t: seq<char>, a: seq<char>, left: seq<char>, mid: seq<char>, right: seq<char>,
                    b: seq<char>, x: int, y: int, i: int, j: int)
    requires 0 <= x <= |left| && 0 <= y <= |right|
    requires i == |a| + x && j == |a| + |left| + |mid| + y
    requires t == a + left + mid + right + b
    ensures i <= j <= |t| && t[i..j] == left[x..] + mid + right[..y]
  {
    assert t[..j] == a + left + mid + right[..y];
    assert t[..j] == (a + left[..x]) + (left[x..] + mid + right[..y]);
  }

  /** The text between two positions of one row is a slice of that row. */
  lemma SpanInRow(ls: seq<Line>, s: Position, e: Position)
    requires ValidPosition(ls, s) && ValidPosition(ls, e) && s.Y == e.Y && s.X <= e.X
    ensures Span(ls, s, e) == ls[s.Y][s.X..e.X]
  {
    OffsetBound(ls, e);
    JoinSlice(ls, Offset(ls, s), Offset(ls, e));
    TerminatedAround(ls, s.Y);
    SliceInLine(Terminated(ls), Terminated(ls[..s.Y]), ls[s.Y], "\n" + Terminated(ls[s.Y + 1..]),
                s.X, e.X, Offset(ls, s), Offset(ls, e));
  }

  /**
   * The text between positions on different rows: the tail of the first row,
   * a separator, every row in between with its separator, and the head of
   * the last row.
   */
  lemma SpanAcrossRows(ls: seq<Line>, s: Position, e: Position)
    requires ValidPosition(ls, s) && ValidPosition(ls, e) && s.Y < e.Y
    ensures Span(ls, s, e) == ls[s.Y][s.X..] + ("\n" + Terminated(ls[s.Y + 1..e.Y])) + ls[e.Y][..e.X]
  {
    RowOffsetGap(ls, s, e);
    OffsetBound(ls, e);
    JoinSlice(ls, Offset(ls, s), Offset(ls, e));
    TerminatedAroundTwo(ls, s.Y, e.Y);
    SliceAcross(Terminated(ls), Terminated(ls[..s.Y]), ls[s.Y], "\n" + Terminated(ls[s.Y + 1..e.Y]), ls[e.Y],
                "\n" + Terminated(ls[e.Y + 1..]), s.X, e.X, Offset(ls, s), Offset(ls, e));
  }

  /**
   * The joined text before a deletion is the text after it with the deleted
   * span put back at the caret where the range started.
   */
  lemma DeleteRangeRestores(ls: seq<Line>, s: Position, e: Position)
    requires ValidPosition(ls, s) && ValidPosition(ls, e) && AtOrBefore(s, e)
    ensures ValidPosition(DeleteRange(ls, s, e), s)
    ensures Offset(DeleteRange(ls, s, e), s) == Offset(ls, s) <= |Join(DeleteRange(ls, s, e))|
    ensures var t', k := Join(DeleteRange(ls, s, e)), Offset(ls, s);
      Join(ls) == t'[..k] + Span(ls, s, e) + t'[k..]
  {
    DeleteRangeText(ls, s, e);
    OffsetBound(DeleteRange(ls, s, e), s);
    var t, i, j := Join(ls), Offset(ls, s), Offset(ls, e);
    assert t == t[..i] + t[i..j] + t[j..];
  }

  /**
   * For valid positions, lying in the half-open span from `s` to `e` is
   * lying at a caret whose following character belongs to Span(ls, s, e).
   */
  lemma BetweenByOffset(ls: seq<Line>, pos: Position, s: Position, e: Position)
    requires ValidPosition(ls, pos) && ValidPosition(ls, s) && ValidPosition(ls, e)
    ensures IsPositionBetween(pos, s, e) <==> Offset(ls, s) <= Offset(ls, pos) < Offset(ls, e)
  {
    OffsetOrder(ls, s, pos);
    OffsetOrder(ls, pos, e);
  }

  /** Deleting the one character just inserted gives back the original lines. */
  lemma InsertThenDelete(ls: seq<Line>, p: Position, c: char)
    requires ValidPosition(ls, p)
    ensures ValidPosition(InsertAt(ls, p, c), p)
    ensures ValidPosition(InsertAt(ls, p, c), Position(p.X + 1, p.Y))
    ensures DeleteRange(InsertAt(ls, p, c), p, Position(p.X + 1, p.Y)) == ls
  {
    var line := ls[p.Y];
    var line' := line[..p.X] + [c] + line[p.X..];
    assert line'[..p.X] + line'[p.X + 1..] == line;
  }

  /** Deleting the separator just inserted joins the split row back. */
  lemma SplitThenDelete(ls: seq<Line>, p: Position)
    requires ValidPosition(ls, p)
    ensures ValidPosition(SplitAt(ls, p), p)
    ensures ValidPosition(SplitAt(ls, p), Position(0, p.Y + 1))
    ensures DeleteRange(SplitAt(ls, p), p, Position(0, p.Y + 1)) == ls
  {
    var ls' := SplitAt(ls, p);
    assert ls'[..p.Y] == ls[..p.Y];
    assert ls'[p.Y + 2..] == ls[p.Y + 1..];
    assert ls'[p.Y][..p.X] + ls'[p.Y + 1][0..] == ls[p.Y];
    assert ls == ls[..p.Y] + [ls[p.Y]] + ls[p.Y + 1..];
  }
}
