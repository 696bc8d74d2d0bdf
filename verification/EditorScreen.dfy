// The editor draws its text through the terminal and then places the cursor by its own arithmetic: when the
// two agree, and that the cursor then stands on the character it edits.
module EditorScreen {
  import opened NawBase
  import opened TerminalModel
  import opened TerminalLayout
  import opened VisualPosition
  import opened EditorLayout

  const ORIGIN := Pos(0, 0)

  // ----- positions in a layout -----

  lemma {:induction false} LayoutWalk(text: seq<char>)
    ensures |Layout(text)| == Walk(ORIGIN, text).row + 1 && Last(Layout(text)).len == Walk(ORIGIN, text).col
  {
    hide Layout;
    if text == [] {
      LayoutNothing();
    } else {
      var init, c := text[..|text| - 1], text[|text| - 1];
      assert text == init + [c];
      LayoutWalk(init);
      LayoutSnoc(init, c);
    }
  }

  // The terminal's cursor after drawing a text is at the text's position, held at the last row of history.
  lemma {:induction false} CursorAfterDrawing(text: seq<char>)
    requires BACKSPACE !in text
    ensures Inv(Cleared())
    ensures
      var t, p := Write(Cleared(), text), Walk(ORIGIN, text);
      t.row == Min(p.row, SCROLLBACK_ROWS - 1) && t.col == p.col && t.total == t.row + 1
  {
    hide Write, Layout, Walk;
    Scrollback(text);
    LayoutWalk(text);
  }

  function CharAt(text: seq<char>, i: nat): char { if i < |text| && text[i] != '\n' then text[i] else ' ' }

  // Every character stands in the layout at its position; line ends and the end of the text stand on a blank.
  lemma {:induction false} CellAtPosition(text: seq<char>, i: nat)
    requires i <= |text|
    ensures
      var p := PosAt(ORIGIN, text, i);
      p.row < |Layout(text)| && p.col < MAX_COLS && Layout(text)[p.row].cells[p.col] == CharAt(text, i)
  {
    hide Layout, PosAt, Walk, Extend, Open;
    if i == |text| {
      PosAtEnd(text);
      LayoutWalk(text);
      LayoutSnoc(text, 'x');
      OpenIsBlank(Last(Layout(text)));
    } else {
      var init, c := text[..|text| - 1], text[|text| - 1];
      assert text == init + [c];
      CellAtPosition(init, i);
      PosAtPrefix(init, c, i);
      LayoutSnoc(init, c);
      LayoutWalk(init);
      PosAtEnd(init);
      if i < |init| { PositionsIncrease(ORIGIN, init, i, |init|); }
      ExtendCell(Layout(init), c, PosAt(ORIGIN, init, i));
    }
  }

  lemma PosAtEnd(text: seq<char>)
    ensures PosAt(ORIGIN, text, |text|) == Walk(ORIGIN, text)
  {
    assert text[..|text|] == text;
  }

  lemma PosAtPrefix(text: seq<char>, c: char, i: nat)
    requires i <= |text|
    ensures PosAt(ORIGIN, text + [c], i) == PosAt(ORIGIN, text, i)
  {
    assert (text + [c])[..i] == text[..i];
  }

  lemma OpenIsBlank(r: Row)
    requires Open(r)
    ensures r.len < MAX_COLS && r.cells[r.len] == ' '
  {
  }

  // One character more changes no cell but the one after the end.
  lemma ExtendCell(rows: seq<Row>, c: char, p: Pos)
    requires rows != [] && Open(Last(rows)) && p.row < |rows| && p.col < MAX_COLS
    requires p == Pos(|rows| - 1, Last(rows).len) || Before(p, Pos(|rows| - 1, Last(rows).len))
    ensures p.row < |Extend(rows, c)|
    ensures Extend(rows, c)[p.row].cells[p.col]
      == if p == Pos(|rows| - 1, Last(rows).len) && c != '\n' then c else rows[p.row].cells[p.col]
  {
  }

  // ----- the header -----

  const TITLE := "Editing: "
  const HELP := "F2 = save, ESC = exit"

  function Header(name: seq<char>, ext: seq<char>, status: seq<char>): seq<char> {
    TITLE + name + "." + ext + "\n" + HELP + "\n" + status + "\n"
  }

  // How many rows too many the header takes: none unless its title or the status message wraps.
  function Excess(name: seq<char>, ext: seq<char>, status: seq<char>): nat {
    (10 + |name| + |ext|) / MAX_COLS + |status| / MAX_COLS
  }

  lemma {:induction false} WalkLine(p: Pos, line: seq<char>)
    requires '\n' !in line && p.col == 0
    ensures Walk(p, line) == Pos(p.row + |line| / MAX_COLS, |line| % MAX_COLS)
  {
    if line != [] {
      var init := line[..|line| - 1];
      assert forall x :: x in init ==> x in line;
      WalkLine(p, init);
      DivNext(|init|);
    }
  }

  lemma DivNext(n: nat)
    ensures n % MAX_COLS + 1 == MAX_COLS ==> (n + 1) / MAX_COLS == n / MAX_COLS + 1 && (n + 1) % MAX_COLS == 0
    ensures n % MAX_COLS + 1 < MAX_COLS ==> (n + 1) / MAX_COLS == n / MAX_COLS && (n + 1) % MAX_COLS == n % MAX_COLS + 1
  {
  }

  lemma WalkLineEnd(p: Pos, line: seq<char>)
    requires '\n' !in line && p.col == 0
    ensures Walk(p, line + "\n") == Pos(p.row + |line| / MAX_COLS + 1, 0)
  {
    WalkLine(p, line);
    WalkSnoc(p, line, '\n');
  }

  predicate Plain(s: seq<char>) { '\n' !in s && BACKSPACE !in s }

  // The text starts at the editor's row 3, or lower by the rows the header wraps into.
  lemma TextStart(name: seq<char>, ext: seq<char>, status: seq<char>)
    requires Plain(name) && Plain(ext) && Plain(status)
    ensures Walk(ORIGIN, Header(name, ext, status)) == Pos(TEXT_START_ROW + Excess(name, ext, status), 0)
  {
    hide Walk;
    var title := TITLE + name + "." + ext;
    assert '\n' !in title;
    assert Header(name, ext, status) == (title + "\n") + (HELP + "\n") + (status + "\n");
    WalkConcat(ORIGIN, (title + "\n") + (HELP + "\n"), status + "\n");
    WalkConcat(ORIGIN, title + "\n", HELP + "\n");
    WalkLineEnd(ORIGIN, title);
    WalkLineEnd(Walk(ORIGIN, title + "\n"), HELP);
    WalkLineEnd(Walk(Walk(ORIGIN, title + "\n"), HELP + "\n"), status);
  }

  lemma {:induction false} WalkDown(p: Pos, k: nat, text: seq<char>)
    ensures Walk(Pos(p.row + k, p.col), text) == Pos(Walk(p, text).row + k, Walk(p, text).col)
  {
    if text != [] { WalkDown(p, k, text[..|text| - 1]); }
  }

  // ----- agreement -----

  function Drawn(name: seq<char>, ext: seq<char>, status: seq<char>, text: seq<char>): Term {
    ClearedInv();
    Write(Cleared(), Header(name, ext, status) + text)
  }

  lemma HeaderPlain(name: seq<char>, ext: seq<char>, status: seq<char>)
    requires Plain(name) && Plain(ext) && Plain(status)
    ensures BACKSPACE !in Header(name, ext, status)
  {
  }

  lemma PositionInDrawing(name: seq<char>, ext: seq<char>, status: seq<char>, text: seq<char>, i: nat)
    requires Plain(name) && Plain(ext) && Plain(status) && i <= |text|
    ensures
      var h := Header(name, ext, status);
      PosAt(ORIGIN, h + text, |h| + i)
        == Pos(At(text, i).row + Excess(name, ext, status), At(text, i).col)
  {
    hide Walk, Header;
    var h := Header(name, ext, status);
    assert (h + text)[..|h| + i] == h + text[..i];
    WalkConcat(ORIGIN, h, text[..i]);
    TextStart(name, ext, status);
    WalkDown(START, Excess(name, ext, status), text[..i]);
  }

  // Drawing the text up to an index leaves the terminal's cursor at the editor's position for it exactly when
  // the header has not wrapped and the position is within the history (or when both are held at its last row).
  lemma CursorAgrees(name: seq<char>, ext: seq<char>, status: seq<char>, text: seq<char>, i: nat)
    requires Plain(name) && Plain(ext) && Plain(status) && BACKSPACE !in text && i <= |text|
    ensures
      var t, p := Drawn(name, ext, status, text[..i]), At(text, i);
      (t.row == p.row && t.col == p.col) <==>
        p.row < SCROLLBACK_ROWS && (Excess(name, ext, status) == 0 || p.row == SCROLLBACK_ROWS - 1)
  {
    hide Walk, Header, Write, Excess;
    var h := Header(name, ext, status);
    HeaderPlain(name, ext, status);
    assert forall x :: x in text[..i] ==> x in text;
    CursorAfterDrawing(h + text[..i]);
    PositionInDrawing(name, ext, status, text[..i], i);
    PosAtEnd(h + text[..i]);
    assert text[..i][..i] == text[..i];
  }

  // The shell starts the editor with a name of at most 8 characters and an extension of at most 3, and its
  // status messages are short: the header it draws never wraps.
  predicate FromShell(name: seq<char>, ext: seq<char>, status: seq<char>) {
    |name| <= 8 && |ext| <= 3 && |status| < MAX_COLS && Plain(name) && Plain(ext) && Plain(status)
  }

  lemma HeaderFits(name: seq<char>, ext: seq<char>, status: seq<char>)
    requires FromShell(name, ext, status)
    ensures Excess(name, ext, status) == 0
    ensures Walk(ORIGIN, Header(name, ext, status)) == START
  {
    TextStart(name, ext, status);
  }

  // So from the shell the two positions agree exactly within the history.
  lemma CursorAgreesFromShell(name: seq<char>, ext: seq<char>, status: seq<char>, text: seq<char>, i: nat)
    requires FromShell(name, ext, status) && BACKSPACE !in text && i <= |text|
    ensures
      var t, p := Drawn(name, ext, status, text[..i]), At(text, i);
      (t.row == p.row && t.col == p.col) <==> p.row < SCROLLBACK_ROWS
  {
    hide Walk, Header, Write, Excess, Drawn, At;
    HeaderFits(name, ext, status);
    CursorAgrees(name, ext, status, text, i);
  }

  function Newlines(n: nat): (text: seq<char>)
    ensures |text| == n && BACKSPACE !in text
  {
    seq(n, _ => '\n')
  }

  lemma {:induction false} NewlinesAt(n: nat, i: nat)
    requires i <= n
    ensures At(Newlines(n), i) == Pos(TEXT_START_ROW + i, 0)
    decreases i
  {
    if i > 0 {
      NewlinesAt(n, i - 1);
      AtNext(Newlines(n), i - 1);
    } else {
      AtStart(Newlines(n));
    }
  }

  // A buffer of 93 empty lines is already too long: its end is drawn one row above where the editor puts it.
  lemma LongTextDisagrees(name: seq<char>, ext: seq<char>, status: seq<char>, n: nat)
    requires FromShell(name, ext, status) && n == SCROLLBACK_ROWS - TEXT_START_ROW
    ensures
      var t, p := Drawn(name, ext, status, Newlines(n)[..n]), At(Newlines(n), n);
      n == 93 && p.row == SCROLLBACK_ROWS && t.row == SCROLLBACK_ROWS - 1
  {
    hide Header, Write, Excess, Walk;
    var h := Header(name, ext, status);
    HeaderFits(name, ext, status);
    NewlinesAt(n, n);
    HeaderPlain(name, ext, status);
    assert Newlines(n)[..n] == Newlines(n);
    CursorAfterDrawing(h + Newlines(n));
    PositionInDrawing(name, ext, status, Newlines(n), n);
    PosAtEnd(h + Newlines(n));
  }

  // ----- the picture -----

  // What editor_render leaves: the drawing, and the cursor put at the editor's position.
  function Rendered(name: seq<char>, ext: seq<char>, status: seq<char>, text: seq<char>, cursor: nat): Term
    requires cursor <= |text|
  {
    ClearedInv();
    SetAbsolute(Drawn(name, ext, status, text), At(text, cursor).row, At(text, cursor).col)
  }

  lemma Visible(t: Term, row: int, col: int)
    requires Inv(t) && 0 <= row < t.total && 0 <= col < MAX_COLS
    ensures
      var u := SetAbsolute(t, row, col);
      && u.row == row && u.col == col && u.top <= row < u.top + MAX_ROWS
      && u.rows == t.rows && u.total == t.total && Inv(u)
  {
  }

  // While the drawing fits in the history, the screen shows under the cursor the character the cursor is at:
  // a blank at a line's end or the text's.
  lemma CursorOnItsCharacter(name: seq<char>, ext: seq<char>, status: seq<char>, text: seq<char>, cursor: nat)
    requires Plain(name) && Plain(ext) && Plain(status) && BACKSPACE !in text && cursor <= |text|
    requires Excess(name, ext, status) == 0 && At(text, |text|).row < SCROLLBACK_ROWS
    ensures
      var t := Rendered(name, ext, status, text, cursor);
      && Inv(t) && t.top <= t.row < t.top + MAX_ROWS
      && CellAt(t, t.row - t.top, t.col) == CharAt(text, cursor)
  {
    hide Walk, Header, Write, Excess, SetAbsolute, CharAt, Layout, At;
    var h := Header(name, ext, status);
    var t, p := Drawn(name, ext, status, text), At(text, cursor);
    HeaderPlain(name, ext, status);
    Scrollback(h + text);
    CursorAfterDrawing(h + text);
    PositionInDrawing(name, ext, status, text, |text|);
    PositionInDrawing(name, ext, status, text, cursor);
    PosAtEnd(h + text);
    LayoutWalk(h + text);
    CellAtPosition(h + text, |h| + cursor);
    CharInDrawing(h, text, cursor);
    if cursor < |text| { AtOrder(text, cursor, |text|); }
    assert t.rows[p.row] == Layout(h + text)[p.row];
    Visible(t, p.row, p.col);
  }

  lemma CharInDrawing(h: seq<char>, text: seq<char>, i: nat)
    requires i <= |text|
    ensures CharAt(h + text, |h| + i) == CharAt(text, i)
  {
  }
}
