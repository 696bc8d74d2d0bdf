// The terminal as it runs: history rows shifted in place, a cursor, a view, and a screen redrawn after each
// operation or once per batch. Every method is proved to do what TerminalModel says, and to leave the screen
// showing the state unless a redraw is pending.
module Terminal {
  import opened TerminalModel
  import opened TerminalLayout

  // Where the hardware cursor is put: at the cursor when the view shows it, else in the last cell.
  function Offset(t: Term): int {
    2 * (if t.top <= t.row < t.top + MAX_ROWS then (t.row - t.top) * MAX_COLS + t.col else MAX_ROWS * MAX_COLS - 1)
  }

  lemma CursorInside(t: Term)
    requires Inv(t)
    ensures 0 <= t.row < t.total <= SCROLLBACK_ROWS && 0 <= t.col < MAX_COLS
  {
  }

  lemma RoomIsBelow(t: Term)
    requires |t.rows| == SCROLLBACK_ROWS && 0 <= t.row <= SCROLLBACK_ROWS
    ensures 0 <= EnsureRoom(t).row
  {
  }

  // Where a backspace goes, and the one row it changes.
  lemma ErasedIs(t: Term)
    requires Inv(t) && (t.row > 0 || t.col > 0)
    ensures
      var u := StepBack(t);
      && 0 <= u.row < SCROLLBACK_ROWS == |t.rows| && 0 <= u.col < MAX_COLS
      && (t.col > 0 ==> u.row == t.row && u.col == t.col - 1)
      && var r := t.rows[u.row];
      && (t.col == 0 ==> u.row == t.row - 1 && u.col == if r.wrapped then MAX_COLS - 1 else r.len)
      && var last := r.wrapped && u.col == MAX_COLS - 1;
      Erase(t) == t.(row := u.row, col := u.col,
        rows := t.rows[u.row := Row(r.cells[u.col := ' '], u.col, if last then false else r.wrapped)])
  {
  }

  lemma NothingErased(t: Term)
    requires Inv(t) && t.row == t.col == 0
    ensures Erase(t) == t
  {
  }

  lemma ClearedIs(rows: seq<Row>)
    requires |rows| == SCROLLBACK_ROWS && forall r :: 0 <= r < |rows| ==> rows[r] == BLANK
    ensures Cleared() == Term(rows, 0, 0, 1, 0) && Inv(Cleared())
  {
    assert rows == BlankRows(SCROLLBACK_ROWS);
  }

  class Console {
    const history: array2<char>
    const lengths: array<nat>
    const wrapped: array<bool>
    var cursorRow: int
    var cursorCol: int
    var totalRows: int
    var viewTop: int
    var batchDepth: nat
    var pending: bool
    // The visible cells, and the offset of the hardware cursor in bytes.
    const screen: array2<char>
    var cursorOffset: int
    ghost var model: Term
    // How often the whole screen has been drawn.
    ghost var draws: nat

    ghost predicate Shaped()
      reads this`model
    {
      && history.Length0 == SCROLLBACK_ROWS && history.Length1 == MAX_COLS
      && lengths.Length == SCROLLBACK_ROWS && wrapped.Length == SCROLLBACK_ROWS
      && screen.Length0 == MAX_ROWS && screen.Length1 == MAX_COLS && history != screen
      && |model.rows| == SCROLLBACK_ROWS
    }

    // The fields hold the state in model.
    ghost predicate Holds()
      reads this, history, lengths, wrapped
    {
      && Shaped()
      && cursorRow == model.row && cursorCol == model.col && totalRows == model.total && viewTop == model.top
      && (forall r, c :: 0 <= r < SCROLLBACK_ROWS && 0 <= c < MAX_COLS ==> history[r, c] == model.rows[r].cells[c])
      && (forall r :: 0 <= r < SCROLLBACK_ROWS ==> lengths[r] == model.rows[r].len)
      && forall r :: 0 <= r < SCROLLBACK_ROWS ==> wrapped[r] == model.rows[r].wrapped
    }

    ghost predicate Shown()
      requires Shaped() && Inv(model)
      reads this, screen
    {
      && cursorOffset == Offset(model)
      && forall r, c :: 0 <= r < MAX_ROWS && 0 <= c < MAX_COLS ==> screen[r, c] == CellAt(model, r, c)
    }

    ghost predicate Valid()
      reads this, history, lengths, wrapped, screen
    {
      Holds() && Inv(model) && (pending ==> batchDepth > 0) && (pending || Shown())
    }

    // Inside a batch nothing is drawn, and a redraw once asked for stays asked for.
    twostate predicate Deferred()
      reads this
    {
      old(batchDepth) > 0 ==> draws == old(draws) && (old(pending) ==> pending)
    }

    constructor ()
      ensures Valid() && model == Cleared() && batchDepth == 0
      ensures fresh(history) && fresh(lengths) && fresh(wrapped) && fresh(screen)
    {
      history := new char[SCROLLBACK_ROWS, MAX_COLS]((r, c) => ' ');
      lengths := new nat[SCROLLBACK_ROWS](_ => 0);
      wrapped := new bool[SCROLLBACK_ROWS](_ => false);
      screen := new char[MAX_ROWS, MAX_COLS]((r, c) => ' ');
      cursorRow, cursorCol, totalRows, viewTop := 0, 0, 1, 0;
      batchDepth, pending, cursorOffset := 0, false, 0;
      model, draws := Cleared(), 0;
    }

    // ----- history rows -----

    method ClearHistoryRow(row: int)
      requires Holds() && 0 <= row < SCROLLBACK_ROWS
      modifies history, lengths, wrapped, this`model
      ensures Holds() && model == old(model).(rows := old(model).rows[row := BLANK])
    {
      ghost var m := model;
      var col := 0;
      while col < MAX_COLS
        modifies history
        invariant col <= MAX_COLS
        invariant forall r, c :: 0 <= r < SCROLLBACK_ROWS && 0 <= c < MAX_COLS ==>
          history[r, c] == if r == row && c < col then ' ' else m.rows[r].cells[c]
      {
        history[row, col] := ' ';
        col := col + 1;
      }
      lengths[row] := 0;
      wrapped[row] := false;
      model := m.(rows := m.rows[row := BLANK]);
    }

    method CopyRowUp(row: int)
      requires Shaped() && 1 <= row < SCROLLBACK_ROWS
      modifies history
      ensures forall r, c :: 0 <= r < SCROLLBACK_ROWS && 0 <= c < MAX_COLS ==>
        history[r, c] == if r == row - 1 then old(history[row, c]) else old(history[r, c])
    {
      var col := 0;
      while col < MAX_COLS
        invariant col <= MAX_COLS
        invariant forall r, c :: 0 <= r < SCROLLBACK_ROWS && 0 <= c < MAX_COLS ==>
          history[r, c] == if r == row - 1 && c < col then old(history[row, c]) else old(history[r, c])
      {
        history[row - 1, col] := history[row, col];
        col := col + 1;
      }
    }

    method ShiftRows()
      requires Holds()
      modifies history, lengths, wrapped
      ensures forall r, c :: 0 <= r < SCROLLBACK_ROWS && 0 <= c < MAX_COLS ==>
        history[r, c] == model.rows[if r < SCROLLBACK_ROWS - 1 then r + 1 else r].cells[c]
      ensures forall r :: 0 <= r < SCROLLBACK_ROWS ==>
        lengths[r] == model.rows[if r < SCROLLBACK_ROWS - 1 then r + 1 else r].len
      ensures forall r :: 0 <= r < SCROLLBACK_ROWS ==>
        wrapped[r] == model.rows[if r < SCROLLBACK_ROWS - 1 then r + 1 else r].wrapped
    {
      var row := 1;
      while row < SCROLLBACK_ROWS
        invariant 1 <= row <= SCROLLBACK_ROWS
        invariant forall r, c :: 0 <= r < SCROLLBACK_ROWS && 0 <= c < MAX_COLS ==>
          history[r, c] == if r < row - 1 then old(history[r + 1, c]) else old(history[r, c])
        invariant forall r :: 0 <= r < SCROLLBACK_ROWS ==>
          lengths[r] == if r < row - 1 then old(lengths[r + 1]) else old(lengths[r])
        invariant forall r :: 0 <= r < SCROLLBACK_ROWS ==>
          wrapped[r] == if r < row - 1 then old(wrapped[r + 1]) else old(wrapped[r])
      {
        CopyRowUp(row);
        lengths[row - 1] := lengths[row];
        wrapped[row - 1] := wrapped[row];
        row := row + 1;
      }
    }

    method ShiftHistoryUp()
      requires Holds()
      modifies history, lengths, wrapped, this`model, this`cursorRow, this`totalRows, this`viewTop
      ensures Holds() && model == Shift(old(model))
    {
      ghost var m := model;
      ShiftRows();
      ghost var moved := m.rows[1..] + [m.rows[SCROLLBACK_ROWS - 1]];
      model := m.(rows := moved);
      ClearHistoryRow(SCROLLBACK_ROWS - 1);
      assert moved[SCROLLBACK_ROWS - 1 := BLANK] == m.rows[1..] + [BLANK];
      if cursorRow > 0 {
        cursorRow := cursorRow - 1;
      }
      if totalRows > 1 {
        totalRows := totalRows - 1;
      }
      if viewTop > 0 {
        viewTop := viewTop - 1;
      }
      model := Shift(m);
    }

    method EnsureHistoryRoom()
      requires Holds()
      modifies history, lengths, wrapped, this`model, this`cursorRow, this`totalRows, this`viewTop
      ensures Holds() && model == EnsureRoom(old(model))
    {
      if cursorRow >= SCROLLBACK_ROWS {
        ShiftHistoryUp();
        cursorRow := SCROLLBACK_ROWS - 1;
        model := model.(row := SCROLLBACK_ROWS - 1);
      }
      if cursorRow >= totalRows {
        totalRows := cursorRow + 1;
        model := model.(total := model.row + 1);
      }
    }

    method AdvanceToNextRow()
      requires Holds() && 0 <= model.row < SCROLLBACK_ROWS
      modifies history, lengths, wrapped, this`model, this`cursorRow, this`cursorCol, this`totalRows, this`viewTop
      ensures Holds() && model == NextRow(old(model))
    {
      hide Shift;
      cursorCol := 0;
      cursorRow := cursorRow + 1;
      model := model.(row := model.row + 1, col := 0);
      RoomIsBelow(model);
      EnsureHistoryRoom();
      ClearHistoryRow(cursorRow);
    }

    // ----- the view -----

    method LiveViewTopRow() returns (top: int)
      ensures top == LiveTop(totalRows)
    {
      if totalRows <= MAX_ROWS {
        return 0;
      }
      return totalRows - MAX_ROWS;
    }

    method RenderView()
      requires Holds() && Inv(model)
      modifies screen, this`cursorOffset, this`draws
      ensures Holds() && Shown() && draws == old(draws) + 1
    {
      draws := draws + 1;
      var row := 0;
      while row < MAX_ROWS
        modifies screen
        invariant row <= MAX_ROWS
        invariant forall r, c :: 0 <= r < row && 0 <= c < MAX_COLS ==> screen[r, c] == CellAt(model, r, c)
      {
        RenderRow(row);
        row := row + 1;
      }
      if cursorRow >= viewTop && cursorRow < viewTop + MAX_ROWS {
        cursorOffset := ((cursorRow - viewTop) * MAX_COLS + cursorCol) * 2;
      } else {
        cursorOffset := ((MAX_ROWS - 1) * MAX_COLS + (MAX_COLS - 1)) * 2;
      }
    }

    method RenderRow(row: int)
      requires Holds() && Inv(model) && 0 <= row < MAX_ROWS
      modifies screen
      ensures forall c :: 0 <= c < MAX_COLS ==> screen[row, c] == CellAt(model, row, c)
      ensures forall r, c :: 0 <= r < MAX_ROWS && 0 <= c < MAX_COLS && r != row ==> screen[r, c] == old(screen[r, c])
    {
      var historyRow := viewTop + row;
      var col := 0;
      while col < MAX_COLS
        invariant col <= MAX_COLS
        invariant forall c :: 0 <= c < col ==> screen[row, c] == CellAt(model, row, c)
        invariant forall r, c :: 0 <= r < MAX_ROWS && 0 <= c < MAX_COLS && r != row ==>
          screen[r, c] == old(screen[r, c])
      {
        if historyRow < totalRows {
          screen[row, col] := history[historyRow, col];
        } else {
          screen[row, col] := ' ';
        }
        col := col + 1;
      }
    }

    // Redraws now, or at the end of the batch.
    method RequestRender()
      requires Holds() && Inv(model) && (pending ==> batchDepth > 0)
      modifies screen, this`cursorOffset, this`pending, this`draws
      ensures Valid() && pending == (batchDepth > 0)
      ensures draws == if batchDepth > 0 then old(draws) else old(draws) + 1
    {
      if batchDepth > 0 {
        pending := true;
        return;
      }
      RenderView();
    }

    method EnsureCursorVisible()
      requires Holds()
      modifies this`viewTop, this`model
      ensures Holds() && model == ShowCursor(old(model))
    {
      if cursorRow < viewTop {
        viewTop := cursorRow;
      } else if cursorRow >= viewTop + MAX_ROWS {
        viewTop := cursorRow - MAX_ROWS + 1;
      }
      model := ShowCursor(model);
    }

    method BeginBatch()
      requires Valid()
      modifies this`batchDepth
      ensures Valid() && model == old(model) && batchDepth == old(batchDepth) + 1
    {
      batchDepth := batchDepth + 1;
    }

    // The outermost end of a batch draws what the batch left.
    method EndBatch()
      requires Valid()
      modifies screen, this`cursorOffset, this`batchDepth, this`pending, this`draws
      ensures Valid() && model == old(model) && batchDepth == if old(batchDepth) == 0 then 0 else old(batchDepth) - 1
      ensures batchDepth == 0 ==> Shown()
      ensures draws == if old(batchDepth) == 1 && old(pending) then old(draws) + 1 else old(draws)
      ensures batchDepth > 0 ==> pending == old(pending)
    {
      if batchDepth == 0 {
        return;
      }
      batchDepth := batchDepth - 1;
      if batchDepth == 0 && pending {
        pending := false;
        RenderView();
      }
    }

    // ----- moving -----

    method SetCursorOffset(offset: nat)
      requires Valid()
      modifies this, history, lengths, wrapped, screen
      ensures Valid() && model == SetOffset(old(model), offset) && batchDepth == old(batchDepth) && Deferred()
    {
      hide Shift, EnsureRoom, Inv, Shown;
      OffsetInv(model, offset);
      var o := if offset >= MAX_ROWS * MAX_COLS then MAX_ROWS * MAX_COLS - 1 else offset;
      cursorRow := viewTop + o / MAX_COLS;
      cursorCol := o % MAX_COLS;
      model := model.(row := model.top + o / MAX_COLS, col := o % MAX_COLS);
      EnsureHistoryRoom();
      RequestRender();
    }

    method MoveCursorLeft()
      requires Valid()
      modifies this, screen
      ensures Valid() && model == MoveLeft(old(model)) && batchDepth == old(batchDepth) && Deferred()
    {
      hide Inv, Shown;
      LeftInv(model);
      CursorInside(model);
      ghost var m := model;
      if cursorCol > 0 {
        cursorCol := cursorCol - 1;
      } else if cursorRow > 0 {
        var prevRow := cursorRow - 1;
        cursorRow := prevRow;
        cursorCol := if wrapped[prevRow] then MAX_COLS - 1 else lengths[prevRow];
      } else {
        return;
      }
      model := StepBack(m);
      EnsureCursorVisible();
      RequestRender();
    }

    method MoveCursorRight()
      requires Valid()
      modifies this, screen
      ensures Valid() && model == MoveRight(old(model)) && batchDepth == old(batchDepth) && Deferred()
    {
      hide Shown, Inv;
      RightInv(model);
      CursorInside(model);
      ghost var m := model;
      if wrapped[cursorRow] {
        if cursorCol < MAX_COLS - 1 {
          cursorCol := cursorCol + 1;
        } else if cursorRow + 1 < totalRows {
          cursorRow := cursorRow + 1;
          cursorCol := 0;
        } else {
          return;
        }
      } else if cursorCol < lengths[cursorRow] {
        cursorCol := cursorCol + 1;
      } else if cursorRow + 1 < totalRows {
        cursorRow := cursorRow + 1;
        cursorCol := 0;
      } else {
        return;
      }
      model := m.(row := cursorRow, col := cursorCol);
      EnsureCursorVisible();
      RequestRender();
    }

    method SetCursorAbsolute(row0: int, col0: int)
      requires Valid()
      modifies this, screen
      ensures Valid() && model == SetAbsolute(old(model), row0, col0) && batchDepth == old(batchDepth) && Deferred()
    {
      hide Shown, Inv;
      AbsoluteInv(model, row0, col0);
      CursorInside(model);
      var row, col := row0, col0;
      if row < 0 {
        row := 0;
      }
      if row >= totalRows {
        row := totalRows - 1;
      }
      if row < 0 {
        row := 0;
      }
      if col < 0 {
        col := 0;
      }
      if col >= MAX_COLS {
        col := MAX_COLS - 1;
      }
      cursorRow := row;
      cursorCol := col;
      model := model.(row := row, col := col);
      EnsureCursorVisible();
      RequestRender();
    }

    // ----- clearing and paging -----

    method Clear()
      requires Valid()
      modifies this, history, lengths, wrapped, screen
      ensures Valid() && model == Cleared() && batchDepth == old(batchDepth) && Deferred()
      ensures batchDepth > 0 ==> pending
    {
      hide Inv, Shown, Cleared;
      ghost var m := model;
      var row := 0;
      while row < SCROLLBACK_ROWS
        modifies history, lengths, wrapped, this`model
        invariant row <= SCROLLBACK_ROWS && Holds() && model == m.(rows := model.rows)
        invariant forall r :: 0 <= r < row ==> model.rows[r] == BLANK
      {
        ClearHistoryRow(row);
        row := row + 1;
      }
      cursorRow, cursorCol, totalRows, viewTop, cursorOffset := 0, 0, 1, 0, 0;
      ClearedIs(model.rows);
      model := Cleared();
      RequestRender();
    }

    method ScrollPageUp()
      requires Valid()
      modifies this, screen
      ensures Valid() && model == PageUp(old(model)) && batchDepth == old(batchDepth) && Deferred()
    {
      PagingInv(model);
      if viewTop == 0 {
        return;
      }
      viewTop := viewTop - MAX_ROWS;
      if viewTop < 0 {
        viewTop := 0;
      }
      model := PageUp(model);
      RequestRender();
    }

    method ScrollPageDown()
      requires Valid()
      modifies this, screen
      ensures Valid() && model == PageDown(old(model)) && batchDepth == old(batchDepth) && Deferred()
    {
      PagingInv(model);
      var bottom := LiveViewTopRow();
      if viewTop >= bottom {
        return;
      }
      viewTop := viewTop + MAX_ROWS;
      if viewTop > bottom {
        viewTop := bottom;
      }
      model := PageDown(model);
      RequestRender();
    }

    // ----- writing -----

    method PutChar(c: char)
      requires Valid()
      modifies this, history, lengths, wrapped, screen
      ensures Valid() && model == Put(old(model), c) && batchDepth == old(batchDepth) && Deferred()
    {
      hide NextRow;
      PutInv(model, c);
      if c == '\n' {
        PutNewLine();
      } else if c == BACKSPACE {
        PutBackspace();
      } else {
        PutVisible(c);
      }
      viewTop := LiveViewTopRow();
      model := SyncView(model);
      RequestRender();
    }

    method PutNewLine()
      requires Holds() && Inv(model)
      modifies history, lengths, wrapped, this`model, this`cursorRow, this`cursorCol, this`totalRows, this`viewTop
      ensures Holds() && model == NewLine(old(model))
    {
      hide NextRow;
      lengths[cursorRow] := cursorCol;
      wrapped[cursorRow] := false;
      model := SetRow(model, model.rows[model.row].(len := model.col, wrapped := false));
      AdvanceToNextRow();
    }

    method PutBackspace()
      requires Holds() && Inv(model)
      modifies history, lengths, wrapped, this`model, this`cursorRow, this`cursorCol
      ensures Holds() && model == Erase(old(model))
    {
      hide Inv, Erase, StepBack;
      ghost var m := model;
      CursorInside(m);
      if cursorRow > 0 || cursorCol > 0 {
        ErasedIs(m);
        if cursorCol > 0 {
          cursorCol := cursorCol - 1;
        } else {
          var prevRow := cursorRow - 1;
          cursorRow := prevRow;
          cursorCol := if wrapped[prevRow] then MAX_COLS - 1 else lengths[prevRow];
        }
        if wrapped[cursorRow] && cursorCol == MAX_COLS - 1 {
          wrapped[cursorRow] := false;
          lengths[cursorRow] := MAX_COLS - 1;
        } else {
          lengths[cursorRow] := cursorCol;
        }
        history[cursorRow, cursorCol] := ' ';
        model := Erase(m);
      } else {
        NothingErased(m);
      }
    }

    method PutVisible(c: char)
      requires Holds() && Inv(model)
      modifies history, lengths, wrapped, this`model, this`cursorRow, this`cursorCol, this`totalRows, this`viewTop
      ensures Holds() && model == Type(old(model), c)
    {
      hide NextRow;
      ghost var m := model;
      history[cursorRow, cursorCol] := c;
      cursorCol := cursorCol + 1;
      lengths[cursorRow] := cursorCol;
      ghost var typed := Row(m.rows[m.row].cells[m.col := c], m.col + 1, m.col + 1 >= MAX_COLS);
      if cursorCol >= MAX_COLS {
        wrapped[cursorRow] := true;
        model := SetRow(m, typed).(col := m.col + 1);
        AdvanceToNextRow();
      } else {
        wrapped[cursorRow] := false;
        model := SetRow(m, typed).(col := m.col + 1);
      }
    }

    // Text up to its terminating zero, which is not part of it.
    method WriteText(text: seq<char>)
      requires Valid()
      modifies this, history, lengths, wrapped, screen
      ensures Valid() && model == Write(old(model), text) && batchDepth == old(batchDepth) && Deferred()
    {
      hide Put, Holds, Shown;
      ghost var m := model;
      var i := 0;
      assert text[..0] == [];
      while i < |text|
        invariant i <= |text| && Valid() && model == Write(m, text[..i])
        invariant batchDepth == old(batchDepth) && Deferred()
      {
        PutChar(text[i]);
        assert text[..i + 1] == text[..i] + [text[i]];
        WriteSnoc(m, text[..i], text[i]);
        i := i + 1;
      }
      assert text[..i] == text;
    }
  }
}
