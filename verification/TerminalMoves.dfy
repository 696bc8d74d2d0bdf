// Moving the cursor and the view without writing: which moves undo which, and what stays in sight.
module TerminalMoves {
  import opened NawBase
  import opened TerminalModel
  import opened TerminalUndo
  import opened VisualPosition
  import Terminal

  // The last column the cursor can be moved to in a row: its last cell when the text goes on below.
  function Limit(r: Row): int { if r.wrapped then MAX_COLS - 1 else r.len }

  predicate InSight(t: Term) { t.top <= t.row < t.top + MAX_ROWS }

  // Nothing but the cursor and the view has changed.
  predicate SameRows(a: Term, b: Term) { a.rows == b.rows && a.total == b.total }

  // Left goes back and right goes on, in reading order, except at the two ends of the text.
  lemma LeftBeforeRight(t: Term)
    requires Inv(t)
    ensures
      var u := Step(t, LeftOp);
      Inv(u) && (u == t || Before(CursorOf(u), CursorOf(t))) && (u == t <==> CursorOf(t) == Pos(0, 0))
    ensures
      var u := Step(t, RightOp);
      && Inv(u) && (u == t || Before(CursorOf(t), CursorOf(u)))
      && (u == t <==> t.row == t.total - 1 && t.col >= Limit(t.rows[t.row]))
  {
    LeftInv(t);
    RightInv(t);
  }

  // The view follows the cursor no further than it must: not at all when the cursor is in sight, else until it is
  // in the first row of the view or in the last.
  lemma ViewFollows(t: Term, op: Op)
    requires Inv(t) && (op == LeftOp || op == RightOp || op.AbsoluteOp?)
    ensures
      var u := Step(t, op);
      if t.top <= u.row < t.top + 25 || u == t then u.top == t.top
      else if u.row < t.top then u.top == u.row
      else u.top == u.row - 24
  {
  }

  // Left undoes right exactly from within the row's text; from past its end it comes back to the end.
  lemma LeftUndoesRight(t: Term)
    requires Inv(t) && MoveRight(t) != t
    ensures Inv(MoveRight(t)) && SameRows(MoveRight(t), t) && InSight(MoveRight(t))
    ensures
      var u := MoveLeft(MoveRight(t));
      Inv(u) && SameRows(u, t) && (CursorOf(u) == CursorOf(t) <==> t.col <= Limit(t.rows[t.row]))
  {
    RightInv(t);
    LeftInv(MoveRight(t));
  }

  lemma RightUndoesLeft(t: Term)
    requires Inv(t) && MoveLeft(t) != t
    ensures Inv(MoveLeft(t)) && SameRows(MoveLeft(t), t) && InSight(MoveLeft(t))
    ensures
      var u := MoveRight(MoveLeft(t));
      Inv(u) && SameRows(u, t) && (CursorOf(u) == CursorOf(t) <==> t.col <= Limit(t.rows[t.row]))
  {
    LeftInv(t);
    RightInv(MoveLeft(t));
  }

  function Gap(x: int, y: int): nat { if x <= y then y - x else x - y }

  // Placing the cursor keeps the rows and brings the cursor in sight, at the place that is nearest in both
  // directions to the one asked for, among the cells of the rows in use.
  lemma PlacedInSight(t: Term, row: int, col: int)
    requires Inv(t)
    ensures
      var u := SetAbsolute(t, row, col);
      && Inv(u) && SameRows(u, t) && InSight(u)
      && 0 <= u.row < t.total && 0 <= u.col < MAX_COLS
      && (forall r :: 0 <= r < t.total ==> Gap(u.row, row) <= Gap(r, row))
      && (forall c :: 0 <= c < MAX_COLS ==> Gap(u.col, col) <= Gap(c, col))
  {
    AbsoluteInv(t, row, col);
  }

  // A screen offset puts the hardware cursor in that cell of the screen, the view staying where it is.
  lemma OffsetLands(t: Term, offset: nat)
    requires Inv(t)
    ensures
      var u := SetOffset(t, offset);
      u.top == t.top && u.rows == t.rows && Terminal.Offset(u) == 2 * Min(offset, MAX_ROWS * MAX_COLS - 1)
  {
  }

  // Paging moves the view alone. A page down undoes a page up exactly from a whole page down or from the
  // bottom, a page up a page down exactly from a whole page above the bottom or from the top.
  lemma PagingUndone(t: Term)
    requires Inv(t)
    ensures SameRows(PageUp(t), t) && CursorOf(t) == Pos(PageUp(t).row, PageUp(t).col)
    ensures PageDown(PageUp(t)) == t <==> t.top >= MAX_ROWS || t.top == LiveTop(t.total)
    ensures PageUp(PageDown(t)) == t <==> t.top + MAX_ROWS <= LiveTop(t.total) || t.top == 0
  {
  }
}
