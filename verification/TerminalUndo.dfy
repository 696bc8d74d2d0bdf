// Backspace takes back what was written.
module TerminalUndo {
  import opened TerminalModel
  import opened TerminalLayout
  import opened VisualPosition

  // The cursor stands at the end of the text: nothing written at it, after it or below it.
  predicate AtEnd(t: Term)
    requires Inv(t)
  {
    && Open(t.rows[t.row]) && t.rows[t.row].len == t.col
    && forall r :: t.row < r < SCROLLBACK_ROWS ==> t.rows[r] == BLANK
  }

  // The same text and cursor. The count of rows in use, and so the view, may differ.
  predicate SameText(a: Term, b: Term) { a.rows == b.rows && a.row == b.row && a.col == b.col }

  function CursorOf(t: Term): Pos
    requires Inv(t)
  {
    Pos(t.row, t.col)
  }

  // Typing one character at the end, with room below, keeps the cursor at the end.
  lemma PutAtEnd(t: Term, c: char)
    requires Inv(t) && AtEnd(t) && c != BACKSPACE
    requires StepPos(CursorOf(t), c).row < SCROLLBACK_ROWS
    ensures Inv(Put(t, c)) && AtEnd(Put(t, c)) && CursorOf(Put(t, c)) == StepPos(CursorOf(t), c)
  {
    PutInv(t, c);
  }

  // One backspace undoes it.
  lemma UndoOne(t: Term, c: char)
    requires Inv(t) && AtEnd(t) && c != BACKSPACE
    requires StepPos(CursorOf(t), c).row < SCROLLBACK_ROWS
    ensures Inv(Put(t, c)) && SameText(Put(Put(t, c), BACKSPACE), t)
  {
    hide Put, AtEnd, Inv, SameText;
    PutAtEnd(t, c);
    if c == '\n' { UndoNewLine(t); } else { UndoType(t, c); }
  }

  lemma UndoNewLine(t: Term)
    requires Inv(t) && AtEnd(t) && t.row + 1 < SCROLLBACK_ROWS && Inv(Put(t, '\n'))
    ensures SameText(Put(Put(t, '\n'), BACKSPACE), t)
  {
    var u := Put(Put(t, '\n'), BACKSPACE);
    assert u.rows[t.row] == t.rows[t.row];
    assert forall k :: 0 <= k < SCROLLBACK_ROWS ==> u.rows[k] == t.rows[k];
  }

  lemma UndoType(t: Term, c: char)
    requires Inv(t) && AtEnd(t) && c != BACKSPACE && c != '\n' && Inv(Put(t, c))
    requires t.col + 1 < MAX_COLS || t.row + 1 < SCROLLBACK_ROWS
    ensures SameText(Put(Put(t, c), BACKSPACE), t)
  {
    var r := t.rows[t.row];
    assert r.cells[t.col := c][t.col := ' '] == r.cells;
    var u := Put(Put(t, c), BACKSPACE);
    assert u.rows[t.row] == r;
    assert forall k :: 0 <= k < SCROLLBACK_ROWS ==> u.rows[k] == t.rows[k];
  }

  lemma EraseSame(a: Term, b: Term)
    requires Inv(a) && Inv(b) && SameText(a, b)
    ensures SameText(Put(a, BACKSPACE), Put(b, BACKSPACE))
  {
  }

  lemma {:induction false} WriteAtEnd(t: Term, text: seq<char>)
    requires Inv(t) && AtEnd(t) && BACKSPACE !in text && Walk(CursorOf(t), text).row < SCROLLBACK_ROWS
    ensures AtEnd(Write(t, text)) && CursorOf(Write(t, text)) == Walk(CursorOf(t), text)
  {
    hide Put, AtEnd, Inv;
    if text != [] {
      var init, c := text[..|text| - 1], text[|text| - 1];
      WriteAtEnd(t, init);
      PutAtEnd(Write(t, init), c);
    }
  }

  function Backspaces(n: nat): (s: seq<char>)
    ensures |s| == n && forall i :: 0 <= i < n ==> s[i] == BACKSPACE
  {
    seq(n, _ => BACKSPACE)
  }

  // n backspaces, counted from the front.
  lemma {:induction false} BackspaceFirst(t: Term, n: nat)
    requires Inv(t) && n > 0
    ensures Inv(Put(t, BACKSPACE)) && Write(t, Backspaces(n)) == Write(Put(t, BACKSPACE), Backspaces(n - 1))
    decreases n
  {
    hide Put;
    PutInv(t, BACKSPACE);
    assert Backspaces(n)[..n - 1] == Backspaces(n - 1);
    if n == 1 {
      assert Write(t, []) == t;
    } else {
      BackspaceFirst(t, n - 1);
      assert Backspaces(n - 1)[..n - 2] == Backspaces(n - 2);
    }
  }

  lemma {:induction false} BackspacesSame(a: Term, b: Term, n: nat)
    requires Inv(a) && Inv(b) && SameText(a, b)
    ensures SameText(Write(a, Backspaces(n)), Write(b, Backspaces(n)))
    decreases n
  {
    hide Put;
    if n > 0 {
      BackspacesSame(a, b, n - 1);
      assert Backspaces(n)[..n - 1] == Backspaces(n - 1);
      EraseSame(Write(a, Backspaces(n - 1)), Write(b, Backspaces(n - 1)));
    }
  }

  // Writing a text that shifts no history and then as many backspaces restores every cell, length and
  // wrap flag, and the cursor.
  lemma {:induction false} BackspaceUndoes(t: Term, text: seq<char>)
    requires Inv(t) && AtEnd(t) && BACKSPACE !in text && Walk(CursorOf(t), text).row < SCROLLBACK_ROWS
    ensures SameText(Write(Write(t, text), Backspaces(|text|)), t)
    decreases |text|
  {
    hide Put, AtEnd, SameText;
    if text == [] {
      SameSelf(t);
    } else {
      var init, c := text[..|text| - 1], text[|text| - 1];
      assert text == init + [c];
      var u := Write(t, init);
      WriteAtEnd(t, init);
      BackspaceUndoes(t, init);
      UndoOne(u, c);
      BackspaceFirst(Put(u, c), |text|);
      PutInv(Put(u, c), BACKSPACE);
      BackspacesSame(Put(Put(u, c), BACKSPACE), u, |init|);
      SameTrans(Write(Put(Put(u, c), BACKSPACE), Backspaces(|init|)), Write(u, Backspaces(|init|)), t);
    }
  }

  lemma SameSelf(t: Term)
    ensures SameText(t, t)
  {
  }

  lemma SameTrans(a: Term, b: Term, c: Term)
    requires SameText(a, b) && SameText(b, c)
    ensures SameText(a, c)
  {
  }

  // After any text, however long, the cursor stands at the end, so that what follows can be taken back.
  lemma {:induction false} WrittenAtEnd(text: seq<char>)
    requires BACKSPACE !in text
    ensures Inv(Cleared()) && AtEnd(Write(Cleared(), text))
  {
    hide Write, Layout, Open;
    Scrollback(text);
    LayoutSnoc(text, 'x');
    var t, rows := Write(Cleared(), text), Layout(text);
    assert t.rows[t.row] == rows[|rows| - t.total..][t.row] == Last(rows);
  }
}
