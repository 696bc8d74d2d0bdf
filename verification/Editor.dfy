// The editor's cursor as it runs: a buffer, a length and a cursor, moved by the arrow keys.
module Editor {
  import opened TerminalModel
  import opened VisualPosition
  import opened EditorLayout
  import opened EditorScreen
  import opened TerminalLayout
  import Terminal

  const BUFFER_SIZE := 512

  class EditorState {
    const buffer: array<char>
    var len: nat
    var cursor: nat

    ghost predicate Valid()
      reads this
    {
      buffer.Length == BUFFER_SIZE && cursor <= len <= BUFFER_SIZE - 1
    }

    ghost function Text(): seq<char>
      requires Valid()
      reads this, buffer
    {
      buffer[..len]
    }

    constructor (text: seq<char>)
      requires |text| <= BUFFER_SIZE - 1
      ensures Valid() && Text() == text && cursor == |text| && fresh(buffer)
    {
      buffer := new char[BUFFER_SIZE](i => if 0 <= i < |text| then text[i] else '\0');
      len := |text|;
      cursor := |text|;
    }

    static method StepVisualPosition(c: char, row: nat, col: nat) returns (r: nat, k: nat)
      ensures Pos(r, k) == StepPos(Pos(row, col), c)
    {
      r, k := row, col;
      if c == '\n' {
        r := r + 1;
        k := 0;
        return;
      }
      k := k + 1;
      if k >= MAX_COLS {
        r := r + 1;
        k := 0;
      }
    }

    method GetVisualPosition() returns (row: nat, col: nat)
      requires Valid()
      ensures Pos(row, col) == At(Text(), cursor)
    {
      row, col := TEXT_START_ROW, 0;
      AtStart(Text());
      var i := 0;
      while i < cursor
        invariant i <= cursor && Pos(row, col) == At(Text(), i)
      {
        AtNext(Text(), i);
        row, col := StepVisualPosition(buffer[i], row, col);
        i := i + 1;
      }
    }

    method IndexFromVisualPosition(targetRow: int, targetCol: int) returns (r: int)
      requires Valid()
      ensures IsIndexFor(Text(), targetRow, targetCol, r)
    {
      hide At;
      var row: nat, col: nat := TEXT_START_ROW, 0;
      r := -1;
      AtStart(Text());
      var i := 0;
      while i <= len
        invariant i <= len && Pos(row, col) == At(Text(), i)
        invariant r == -1 ==> forall j: nat :: j < i ==> At(Text(), j).row != targetRow
        invariant r != -1 ==> 0 <= r < i && At(Text(), r).row == targetRow
        invariant forall j: nat :: j < i && At(Text(), j).row == targetRow ==> j <= r && At(Text(), j).col < targetCol
        decreases len - i
      {
        if row == targetRow {
          r := i;
          if col >= targetCol {
            return i;
          }
        } else if row > targetRow {
          RowsPassed(Text(), i, targetRow);
          break;
        }
        if i == len {
          break;
        }
        AtNext(Text(), i);
        row, col := StepVisualPosition(buffer[i], row, col);
        i := i + 1;
      }
    }

    // Left and right by one index, up and down by one row.
    method Move(key: int)
      requires Valid()
      modifies this`cursor
      ensures Valid() && Moved(Text(), old(cursor), key, cursor)
    {
      hide IsIndexFor, MovedTo;
      if key == KEY_LEFT && cursor > 0 {
        cursor := cursor - 1;
      } else if key == KEY_RIGHT && cursor < len {
        cursor := cursor + 1;
      } else if key == KEY_UP {
        var row, col := GetVisualPosition();
        var next := IndexFromVisualPosition(row - 1, col);
        LookupMoves(Text(), cursor, row - 1, next);
        IndexInRange(Text(), row - 1, col, next);
        if next >= 0 {
          cursor := next;
        }
      } else if key == KEY_DOWN {
        var row, col := GetVisualPosition();
        var next := IndexFromVisualPosition(row + 1, col);
        LookupMoves(Text(), cursor, row + 1, next);
        IndexInRange(Text(), row + 1, col, next);
        if next >= 0 {
          cursor := next;
        }
      }
    }
  }

  // Draws the header and the text in one batch, and puts the terminal's cursor at the editor's position. The
  // screen is drawn once, at the end, or not before the batch around this one ends.
  method Render(state: EditorState, console: Terminal.Console, name: seq<char>, ext: seq<char>, status: seq<char>)
    requires state.Valid() && console.Valid()
    modifies console, console.history, console.lengths, console.wrapped, console.screen
    ensures state.Valid() && state.Text() == old(state.Text()) && state.cursor == old(state.cursor)
    ensures console.Valid() && console.batchDepth == old(console.batchDepth)
    ensures console.model == Rendered(name, ext, status, state.Text(), state.cursor)
    ensures console.batchDepth == 0 ==> console.Shown()
    ensures console.draws == if console.batchDepth == 0 then old(console.draws) + 1 else old(console.draws)
  {
    hide Write, Put, SetAbsolute, Cleared, Inv, Header, At;
    ghost var text := state.Text();
    ClearedInv();
    console.BeginBatch();
    console.Clear();
    DrawHeader(console, name, ext, status);
    ghost var h := Header(name, ext, status);
    assert h + text[..0] == h;
    var i := 0;
    while i < state.len
      invariant i <= state.len && console.Valid() && console.batchDepth == old(console.batchDepth) + 1
      invariant console.model == Write(Cleared(), h + text[..i])
      invariant console.draws == old(console.draws) && console.pending
    {
      console.PutChar(state.buffer[i]);
      assert h + text[..i + 1] == (h + text[..i]) + [text[i]];
      WriteSnoc(Cleared(), h + text[..i], text[i]);
      i := i + 1;
    }
    assert text[..i] == text;
    var row, col := state.GetVisualPosition();
    console.SetCursorAbsolute(row, col);
    console.EndBatch();
  }

  method DrawHeader(console: Terminal.Console, name: seq<char>, ext: seq<char>, status: seq<char>)
    requires console.Valid() && console.model == Cleared()
    modifies console, console.history, console.lengths, console.wrapped, console.screen
    ensures console.Valid() && console.batchDepth == old(console.batchDepth) && console.Deferred()
    ensures Inv(Cleared()) && console.model == Write(Cleared(), Header(name, ext, status))
  {
    hide Write, Put, Cleared, Inv;
    ClearedInv();
    ghost var t := Cleared();
    console.WriteText(TITLE);
    console.WriteText(name);
    WriteConcat(t, TITLE, name);
    console.WriteText(".");
    WriteConcat(t, TITLE + name, ".");
    console.WriteText(ext);
    WriteConcat(t, TITLE + name + ".", ext);
    console.WriteText("\n");
    WriteConcat(t, TITLE + name + "." + ext, "\n");
    console.WriteText(HELP + "\n");
    WriteConcat(t, TITLE + name + "." + ext + "\n", HELP + "\n");
    assert TITLE + name + "." + ext + "\n" + (HELP + "\n") == TITLE + name + "." + ext + "\n" + HELP + "\n";
    ghost var top := TITLE + name + "." + ext + "\n" + HELP + "\n";
    if |status| > 0 {
      console.WriteText(status);
      WriteConcat(t, top, status);
    } else {
      assert top + status == top;
    }
    console.WriteText("\n");
    WriteConcat(t, top + status, "\n");
  }

  lemma IndexInRange(text: seq<char>, row: int, col: int, r: int)
    requires IsIndexFor(text, row, col, r)
    ensures -1 <= r <= |text|
  {
  }

  // Past a row, no index is in it any more.
  lemma RowsPassed(text: seq<char>, i: nat, row: int)
    requires i <= |text| && At(text, i).row > row
    ensures forall j: nat :: i <= j <= |text| ==> At(text, j).row != row
  {
    hide At;
    forall j: nat | i <= j <= |text| ensures At(text, j).row != row { AtOrder(text, i, j); }
  }
}
