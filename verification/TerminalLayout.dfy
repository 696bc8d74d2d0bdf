// What writing text leaves in the history: the end of its unbounded layout in rows of 80 columns.
module TerminalLayout {
  import opened NawBase
  import opened TerminalModel

  // ----- the unbounded layout -----

  function RowOf(s: seq<char>): Row
    requires |s| < MAX_COLS
  {
    Row(s + Blanks(MAX_COLS - |s|), |s|, false)
  }

  // One line of text, in rows; a line that fills its last row goes on in an empty one.
  function Wrap(line: seq<char>): (rows: seq<Row>)
    ensures rows != []
    decreases |line|
  {
    if |line| < MAX_COLS then [RowOf(line)]
    else [Row(line[..MAX_COLS], MAX_COLS, true)] + Wrap(line[MAX_COLS..])
  }

  function LineEnd(text: seq<char>): (n: nat)
    ensures n <= |text| && '\n' !in text[..n] && (n < |text| ==> text[n] == '\n')
  {
    if text == [] || text[0] == '\n' then 0 else 1 + LineEnd(text[1..])
  }

  function Layout(text: seq<char>): (rows: seq<Row>)
    ensures rows != []
    decreases |text|
  {
    var n := LineEnd(text);
    if n == |text| then Wrap(text) else Wrap(text[..n]) + Layout(text[n + 1..])
  }

  // ----- nothing is lost -----

  predicate Sized(rows: seq<Row>) { forall r :: r in rows ==> r.len <= MAX_COLS }

  // The text that rows hold: a row that is not wrapped ends its line.
  function TextOf(rows: seq<Row>): seq<char>
    requires Sized(rows)
  {
    if rows == [] then []
    else
      var r := rows[0];
      r.cells[..r.len] + (if r.wrapped || |rows| == 1 then [] else "\n") + TextOf(rows[1..])
  }

  // One line: its characters one after the other, 80 in a row, and room after the last.
  lemma {:induction false} WrapPlaces(line: seq<char>, k: nat)
    requires k < |line|
    ensures k / 80 < |Wrap(line)| && Wrap(line)[k / 80].cells[k % 80] == line[k]
    decreases |line|
  {
    if |line| >= MAX_COLS {
      var below := Wrap(line[MAX_COLS..]);
      assert Wrap(line)[0].cells == line[..MAX_COLS] && Wrap(line)[1..] == below;
      if k >= MAX_COLS {
        WrapPlaces(line[MAX_COLS..], k - MAX_COLS);
        RowBelow(k);
      }
    } else {
      assert Wrap(line) == [RowOf(line)];
    }
  }

  lemma RowBelow(k: nat)
    requires k >= 80
    ensures (k - 80) / 80 == k / 80 - 1 && (k - 80) % 80 == k % 80
  {
  }

  lemma {:induction false} WrapCount(line: seq<char>)
    ensures |Wrap(line)| == |line| / 80 + 1
    decreases |line|
  {
    if |line| >= MAX_COLS {
      WrapCount(line[MAX_COLS..]);
      RowBelow(|line|);
    }
  }

  lemma {:induction false} WrapHolds(line: seq<char>)
    ensures Sized(Wrap(line)) && TextOf(Wrap(line)) == line
    decreases |line|
  {
    if |line| >= MAX_COLS {
      var first := Row(line[..MAX_COLS], MAX_COLS, true);
      WrapHolds(line[MAX_COLS..]);
      assert Wrap(line)[1..] == Wrap(line[MAX_COLS..]);
      assert TextOf(Wrap(line)) == line[..MAX_COLS] + [] + line[MAX_COLS..];
    } else {
      assert RowOf(line).cells[..|line|] == line && [RowOf(line)][1..] == [];
    }
  }

  lemma {:induction false} TextOfBoth(a: seq<Row>, b: seq<Row>)
    requires Sized(a) && Sized(b) && a != [] && b != [] && !a[|a| - 1].wrapped
    ensures Sized(a + b) && TextOf(a + b) == TextOf(a) + "\n" + TextOf(b)
  {
    hide TextOf;
    var r := a[0];
    assert forall x :: x in a + b ==> x in a || x in b;
    assert r.len <= MAX_COLS;
    TextOfRows(a);
    TextOfRows(a + b);
    if |a| == 1 {
      assert (a + b)[1..] == b && a[1..] == [];
      TextOfRows([]);
      Ended(r.cells[..r.len], TextOf(b), TextOf(a), TextOf(a + b));
    } else {
      var e := if r.wrapped then [] else "\n";
      assert (a + b)[1..] == a[1..] + b;
      TextOfBoth(a[1..], b);
      Chained(r.cells[..r.len] + e, TextOf(a[1..]), TextOf(b), TextOf(a), TextOf(a + b));
    }
  }

  lemma Ended(x: seq<char>, z: seq<char>, a: seq<char>, ab: seq<char>)
    requires a == x + [] + [] && ab == x + "\n" + z
    ensures ab == a + "\n" + z
  {
  }

  lemma Chained(x: seq<char>, y: seq<char>, z: seq<char>, a: seq<char>, ab: seq<char>)
    requires a == x + y && ab == x + (y + "\n" + z)
    ensures ab == a + "\n" + z
  {
  }

  lemma TextOfRows(rows: seq<Row>)
    requires Sized(rows)
    ensures TextOf(rows) == if rows == [] then [] else
      rows[0].cells[..rows[0].len] + (if rows[0].wrapped || |rows| == 1 then [] else "\n") + TextOf(rows[1..])
  {
  }

  // The rows of a layout hold its text, and wrap exactly where they are full.
  lemma {:induction false} TextBack(text: seq<char>)
    ensures Sized(Layout(text)) && TextOf(Layout(text)) == text
    ensures forall r :: r in Layout(text) ==> (r.wrapped <==> r.len == 80)
    decreases |text|
  {
    hide TextOf, Wrap;
    var n := LineEnd(text);
    WrapHolds(text[..n]);
    WrapFlags(text[..n]);
    if n == |text| {
      assert text[..n] == text;
    } else {
      TextBack(text[n + 1..]);
      TextOfBoth(Wrap(text[..n]), Layout(text[n + 1..]));
      assert text == text[..n] + "\n" + text[n + 1..];
    }
  }

  lemma {:induction false} WrapFlags(line: seq<char>)
    ensures forall r :: r in Wrap(line) ==> (r.wrapped <==> r.len == 80)
    ensures !Wrap(line)[|Wrap(line)| - 1].wrapped
    decreases |line|
  {
    if |line| >= MAX_COLS { WrapFlags(line[MAX_COLS..]); }
  }

  // ----- one character more -----

  function Last(rows: seq<Row>): Row
    requires rows != []
  {
    rows[|rows| - 1]
  }

  // The last row of a layout has room: unwrapped, and blank from its length on.
  predicate Open(r: Row) {
    !r.wrapped && r.len < MAX_COLS && forall i :: r.len <= i < MAX_COLS ==> r.cells[i] == ' '
  }

  function Extend(rows: seq<Row>, c: char): (more: seq<Row>)
    requires rows != [] && Open(Last(rows))
    ensures more != [] && Open(Last(more))
  {
    var init, r := rows[..|rows| - 1], Last(rows);
    if c == '\n' then rows + [BLANK]
    else
      var typed := Row(r.cells[r.len := c], r.len + 1, r.len + 1 == MAX_COLS);
      if typed.wrapped then init + [typed, BLANK] else init + [typed]
  }

  lemma ExtendAfter(a: seq<Row>, rows: seq<Row>, c: char)
    requires rows != [] && Open(Last(rows))
    ensures Last(a + rows) == Last(rows) && Extend(a + rows, c) == a + Extend(rows, c)
  {
    assert (a + rows)[..|a + rows| - 1] == a + rows[..|rows| - 1];
  }

  lemma {:induction false} WrapSnoc(line: seq<char>, c: char)
    requires c != '\n'
    ensures Open(Last(Wrap(line)))
    ensures Wrap(line + [c]) == Extend(Wrap(line), c)
    decreases |line|
  {
    if |line| >= MAX_COLS {
      WrapSnoc(line[MAX_COLS..], c);
      assert (line + [c])[MAX_COLS..] == line[MAX_COLS..] + [c] && (line + [c])[..MAX_COLS] == line[..MAX_COLS];
      ExtendAfter([Row(line[..MAX_COLS], MAX_COLS, true)], Wrap(line[MAX_COLS..]), c);
    } else if |line| == MAX_COLS - 1 {
      WrapFull(line + [c]);
      assert RowOf(line).cells[|line| := c] == line + [c];
    } else {
      assert RowOf(line).cells[|line| := c] == RowOf(line + [c]).cells;
    }
  }

  lemma WrapFull(line: seq<char>)
    requires |line| == MAX_COLS
    ensures Wrap(line) == [Row(line, MAX_COLS, true), BLANK]
  {
    assert line[..MAX_COLS] == line && line[MAX_COLS..] == [];
    assert RowOf([]).cells == BLANK.cells;
  }

  lemma LineEndIs(text: seq<char>, n: nat)
    requires n <= |text| && '\n' !in text[..n] && (n < |text| ==> text[n] == '\n')
    ensures LineEnd(text) == n
  {
    var m := LineEnd(text);
    forall i | 0 <= i < n ensures text[i] != '\n' { assert text[..n][i] in text[..n]; }
    forall i | 0 <= i < m ensures text[i] != '\n' { assert text[..m][i] in text[..m]; }
  }

  lemma LayoutOneLine(line: seq<char>)
    requires '\n' !in line
    ensures Layout(line) == Wrap(line)
  {
    hide Wrap;
    assert line[..|line|] == line;
    LineEndIs(line, |line|);
  }

  lemma LayoutLines(line: seq<char>, rest: seq<char>)
    requires '\n' !in line
    ensures Layout(line + "\n" + rest) == Wrap(line) + Layout(rest)
  {
    hide Wrap;
    var text := line + "\n" + rest;
    assert text[..|line|] == line && text[|line| + 1..] == rest;
    LineEndIs(text, |line|);
  }

  // Writing one more character extends the layout at its end.
  lemma {:induction false} LayoutSnoc(text: seq<char>, c: char)
    ensures Open(Last(Layout(text)))
    ensures Layout(text + [c]) == Extend(Layout(text), c)
    decreases |text|
  {
    hide Wrap, Layout, Extend, Open, Last;
    var n := LineEnd(text);
    if n < |text| {
      var line, rest := text[..n], text[n + 1..];
      assert text == line + "\n" + rest && text + [c] == line + "\n" + (rest + [c]);
      LayoutLines(line, rest);
      LayoutLines(line, rest + [c]);
      LayoutSnoc(rest, c);
      ExtendAfter(Wrap(line), Layout(rest), c);
    } else {
      assert text[..n] == text;
      LayoutOneLine(text);
      if c == '\n' {
        assert text + [c] == text + "\n" + [];
        LayoutLines(text, []);
        LayoutNothing();
        WrapSnoc(text, 'x');
        ExtendLine(Wrap(text));
      } else {
        LayoutOneLine(text + [c]);
        WrapSnoc(text, c);
      }
    }
  }

  lemma LayoutNothing()
    ensures Layout([]) == [BLANK]
  {
    assert RowOf([]).cells == BLANK.cells;
  }

  lemma ExtendLine(rows: seq<Row>)
    requires rows != [] && Open(Last(rows))
    ensures Extend(rows, '\n') == rows + [BLANK]
  {
  }

  // ----- writing -----

  function Write(t: Term, text: seq<char>): (u: Term)
    requires Inv(t)
    ensures Inv(u)
  {
    if text == [] then t
    else
      var u := Write(t, text[..|text| - 1]);
      PutInv(u, text[|text| - 1]);
      Put(u, text[|text| - 1])
  }

  lemma WriteSnoc(t: Term, text: seq<char>, c: char)
    requires Inv(t)
    ensures Write(t, text + [c]) == Put(Write(t, text), c)
  {
    assert (text + [c])[..|text + [c]| - 1] == text;
  }

  lemma {:induction false} WriteConcat(t: Term, a: seq<char>, b: seq<char>)
    requires Inv(t)
    ensures Write(t, a + b) == Write(Write(t, a), b)
  {
    if b == [] {
      assert a + b == a;
    } else {
      assert (a + b)[..|a + b| - 1] == a + b[..|b| - 1];
      WriteConcat(t, a, b[..|b| - 1]);
    }
  }

  // The history holds the end of a layout, and the cursor stands after its last character.
  predicate Shows(t: Term, rows: seq<Row>)
    requires rows != []
  {
    && t.total == Min(|rows|, SCROLLBACK_ROWS)
    && t.rows == rows[|rows| - t.total..] + BlankRows(SCROLLBACK_ROWS - t.total)
    && t.row == t.total - 1 && t.col == Last(rows).len && t.top == LiveTop(t.total)
  }

  lemma ShowsNewRow(t: Term, rows: seq<Row>, r: Row)
    requires Inv(t) && rows != [] && Shows(t, rows)
    ensures
      var u := SyncView(NextRow(SetRow(t, r).(col := r.len)));
      Shows(u, rows[..|rows| - 1] + [r, BLANK])
  {
    var u := SyncView(NextRow(SetRow(t, r).(col := r.len)));
    var more := rows[..|rows| - 1] + [r, BLANK];
    var was := SetRow(t, r);
    assert forall i :: 0 <= i < t.total ==> was.rows[i] == more[|rows| - t.total + i];
    if t.total == SCROLLBACK_ROWS {
      assert u.rows == was.rows[1..] + [BLANK];
      forall i | 0 <= i < SCROLLBACK_ROWS ensures u.rows[i] == more[|more| - u.total..][i] {
        if i < SCROLLBACK_ROWS - 1 { assert u.rows[i] == was.rows[i + 1]; }
      }
      assert BlankRows(0) == [];
    } else {
      assert |rows| == t.total;
      assert u.rows == was.rows[t.total := BLANK];
      assert more[|more| - u.total..] == more;
    }
  }

  lemma ShowsTyped(t: Term, rows: seq<Row>, r: Row)
    requires Inv(t) && rows != [] && Shows(t, rows)
    ensures Shows(SyncView(SetRow(t, r).(col := r.len)), rows[..|rows| - 1] + [r])
  {
    var more := rows[..|rows| - 1] + [r];
    assert more[|more| - t.total..] == rows[|rows| - t.total..][t.row := r];
  }

  lemma ShowsPut(t: Term, rows: seq<Row>, c: char)
    requires Inv(t) && rows != [] && Open(Last(rows)) && Shows(t, rows) && c != BACKSPACE
    ensures Shows(Put(t, c), Extend(rows, c))
  {
    hide Inv, Shows, Put, Extend;
    if c == '\n' {
      ShowsLineEnd(t, rows);
    } else if Last(rows).len + 1 == MAX_COLS {
      ShowsWrap(t, rows, c);
    } else {
      ShowsPlain(t, rows, c);
    }
  }

  lemma CursorRowIsLast(t: Term, rows: seq<Row>)
    requires Inv(t) && rows != [] && Shows(t, rows)
    ensures t.rows[t.row] == Last(rows) && t.col == Last(rows).len
  {
  }

  lemma ShowsLineEnd(t: Term, rows: seq<Row>)
    requires Inv(t) && rows != [] && Open(Last(rows)) && Shows(t, rows)
    ensures Shows(Put(t, '\n'), Extend(rows, '\n'))
  {
    hide NextRow, Shows;
    var r := Last(rows);
    CursorRowIsLast(t, rows);
    ShowsNewRow(t, rows, r);
    assert rows[..|rows| - 1] + [r, BLANK] == rows + [BLANK];
  }

  lemma ShowsWrap(t: Term, rows: seq<Row>, c: char)
    requires Inv(t) && rows != [] && Open(Last(rows)) && Shows(t, rows) && c != BACKSPACE && c != '\n'
    requires Last(rows).len + 1 == MAX_COLS
    ensures Shows(Put(t, c), Extend(rows, c))
  {
    hide NextRow, Shows;
    var r := Last(rows);
    CursorRowIsLast(t, rows);
    ShowsNewRow(t, rows, Row(r.cells[r.len := c], MAX_COLS, true));
  }

  lemma ShowsPlain(t: Term, rows: seq<Row>, c: char)
    requires Inv(t) && rows != [] && Open(Last(rows)) && Shows(t, rows) && c != BACKSPACE && c != '\n'
    requires Last(rows).len + 1 < MAX_COLS
    ensures Shows(Put(t, c), Extend(rows, c))
  {
    hide NextRow, Shows;
    var r := Last(rows);
    CursorRowIsLast(t, rows);
    ShowsTyped(t, rows, Row(r.cells[r.len := c], r.len + 1, false));
  }

  // From a cleared terminal, text leaves the last 96 rows of its layout at most, in order, with their
  // lengths and wrap flags.
  lemma {:induction false} Scrollback(text: seq<char>)
    requires BACKSPACE !in text
    ensures Inv(Cleared()) && Shows(Write(Cleared(), text), Layout(text))
  {
    hide Put, Layout, Shows, Extend;
    ClearedInv();
    if text == [] {
      LayoutNothing();
      ShowsNothing();
    } else {
      var init, c := text[..|text| - 1], text[|text| - 1];
      assert text == init + [c];
      Scrollback(init);
      LayoutSnoc(init, c);
      ShowsPut(Write(Cleared(), init), Layout(init), c);
    }
  }

  lemma ShowsNothing()
    ensures Shows(Cleared(), [BLANK])
  {
    assert [BLANK][0..] + BlankRows(SCROLLBACK_ROWS - 1) == BlankRows(SCROLLBACK_ROWS);
  }

  // And the screen shows the last 25 rows of the layout, blank below a shorter one.
  lemma ScreenIsLayoutEnd(text: seq<char>, r: nat, c: nat)
    requires BACKSPACE !in text && r < MAX_ROWS && c < MAX_COLS
    ensures
      var rows, at := Layout(text), Max(0, |Layout(text)| - 25) + r;
      var t := Write(Cleared(), text);
      |t.rows| == SCROLLBACK_ROWS && 0 <= t.top && t.total <= SCROLLBACK_ROWS
      && CellAt(t, r, c) == if at < |rows| then rows[at].cells[c] else ' '
  {
    hide Write, Layout, Shows, CellAt;
    Scrollback(text);
    ShownCell(Write(Cleared(), text), Layout(text), r, c);
  }

  lemma ShownCell(t: Term, rows: seq<Row>, r: nat, c: nat)
    requires Inv(t) && rows != [] && Shows(t, rows) && r < MAX_ROWS && c < MAX_COLS
    ensures |t.rows| == SCROLLBACK_ROWS && 0 <= t.top && t.total <= SCROLLBACK_ROWS
    ensures
      var at := LiveTop(|rows|) + r;
      CellAt(t, r, c) == if at < |rows| then rows[at].cells[c] else ' '
  {
    if t.top + r < t.total {
      assert t.rows[t.top + r] == rows[|rows| - t.total..][t.top + r];
    }
  }
}
