// The terminal's state as a value, what each operation does to it, and what every operation keeps.
module TerminalModel {
  import opened NawBase

  const MAX_ROWS := 25
  const MAX_COLS := 80
  const SCROLLBACK_ROWS := 96
  const BACKSPACE := '\U{8}'

  type Cells = s: seq<char> | |s| == MAX_COLS witness Blanks(MAX_COLS)

  // One row of history: its cells, how many of them count as text, whether the text goes on below.
  datatype Row = Row(cells: Cells, len: nat, wrapped: bool)

  datatype Term = Term(rows: seq<Row>, row: int, col: int, total: int, top: int)

  function Blanks(n: nat): (s: seq<char>)
    ensures |s| == n && forall i :: 0 <= i < n ==> s[i] == ' '
  {
    seq(n, _ => ' ')
  }

  const BLANK := Row(Blanks(MAX_COLS), 0, false)

  function BlankRows(n: nat): (rs: seq<Row>)
    ensures |rs| == n && forall i :: 0 <= i < n ==> rs[i] == BLANK
  {
    seq(n, _ => BLANK)
  }

  // The highest row the view can start at.
  function LiveTop(total: int): int { if total <= MAX_ROWS then 0 else total - MAX_ROWS }

  predicate RowOk(r: Row) { r.len <= MAX_COLS && (!r.wrapped ==> r.len < MAX_COLS) }

  predicate Inv(t: Term) {
    && |t.rows| == SCROLLBACK_ROWS && 0 <= t.row < t.total <= SCROLLBACK_ROWS && 0 <= t.col < MAX_COLS
    && 0 <= t.top <= LiveTop(t.total)
    && (forall r :: 0 <= r < t.total ==> RowOk(t.rows[r]))
    && (forall r :: t.total <= r < SCROLLBACK_ROWS ==> t.rows[r] == BLANK)
  }

  // ----- operations -----

  function Cleared(): Term { Term(BlankRows(SCROLLBACK_ROWS), 0, 0, 1, 0) }

  function Shift(t: Term): Term
    requires |t.rows| == SCROLLBACK_ROWS
  {
    Term(t.rows[1..] + [BLANK], if t.row > 0 then t.row - 1 else t.row, t.col,
         if t.total > 1 then t.total - 1 else t.total, if t.top > 0 then t.top - 1 else t.top)
  }

  function EnsureRoom(t: Term): (u: Term)
    requires |t.rows| == SCROLLBACK_ROWS
    ensures |u.rows| == SCROLLBACK_ROWS && u.row < SCROLLBACK_ROWS && u.row < u.total
  {
    var s := if t.row >= SCROLLBACK_ROWS then Shift(t).(row := SCROLLBACK_ROWS - 1) else t;
    if s.row >= s.total then s.(total := s.row + 1) else s
  }

  function NextRow(t: Term): Term
    requires |t.rows| == SCROLLBACK_ROWS && 0 <= t.row
  {
    var u := EnsureRoom(t.(row := t.row + 1, col := 0));
    if u.row < 0 then u else u.(rows := u.rows[u.row := BLANK])
  }

  function SyncView(t: Term): Term { t.(top := LiveTop(t.total)) }

  function ShowCursor(t: Term): Term {
    if t.row < t.top then t.(top := t.row)
    else if t.row >= t.top + MAX_ROWS then t.(top := t.row - MAX_ROWS + 1)
    else t
  }

  function SetRow(t: Term, r: Row): Term
    requires 0 <= t.row < |t.rows|
  {
    t.(rows := t.rows[t.row := r])
  }

  // Where one step to the left ends: in the row, or at the end of the row above.
  function StepBack(t: Term): Term
    requires Inv(t)
  {
    if t.col > 0 then t.(col := t.col - 1)
    else if t.row > 0 then
      var above := t.rows[t.row - 1];
      t.(row := t.row - 1, col := if above.wrapped then MAX_COLS - 1 else above.len)
    else t
  }

  function Erase(t: Term): Term
    requires Inv(t)
  {
    if t.row == 0 && t.col == 0 then t
    else
      var u := StepBack(t);
      var r := u.rows[u.row];
      var last := r.wrapped && u.col == MAX_COLS - 1;
      var cut := if last then r.(wrapped := false, len := MAX_COLS - 1) else r.(len := u.col);
      SetRow(u, cut.(cells := cut.cells[u.col := ' ']))
  }

  function Type(t: Term, c: char): Term
    requires Inv(t)
  {
    var r := t.rows[t.row];
    var col := t.col + 1;
    var typed := Row(r.cells[t.col := c], col, col >= MAX_COLS);
    var u := SetRow(t, typed).(col := col);
    if col >= MAX_COLS then NextRow(u) else u
  }

  function NewLine(t: Term): Term
    requires Inv(t)
  {
    NextRow(SetRow(t, t.rows[t.row].(len := t.col, wrapped := false)))
  }

  function Put(t: Term, c: char): Term
    requires Inv(t)
  {
    SyncView(if c == '\n' then NewLine(t) else if c == BACKSPACE then Erase(t) else Type(t, c))
  }

  function MoveLeft(t: Term): Term
    requires Inv(t)
  {
    if t.col == 0 && t.row == 0 then t else ShowCursor(StepBack(t))
  }

  function MoveRight(t: Term): Term
    requires Inv(t)
  {
    var r := t.rows[t.row];
    if t.col < (if r.wrapped then MAX_COLS - 1 else r.len) then ShowCursor(t.(col := t.col + 1))
    else if t.row + 1 < t.total then ShowCursor(t.(row := t.row + 1, col := 0))
    else t
  }

  function SetAbsolute(t: Term, row: int, col: int): Term
    requires Inv(t)
  {
    ShowCursor(t.(row := Max(0, Min(row, t.total - 1)), col := Max(0, Min(col, MAX_COLS - 1))))
  }

  function SetOffset(t: Term, offset: nat): Term
    requires Inv(t)
  {
    var o := Min(offset, MAX_ROWS * MAX_COLS - 1);
    EnsureRoom(t.(row := t.top + o / MAX_COLS, col := o % MAX_COLS))
  }

  function PageUp(t: Term): Term { t.(top := Max(0, t.top - MAX_ROWS)) }

  function PageDown(t: Term): Term {
    if t.top >= LiveTop(t.total) then t else t.(top := Min(t.top + MAX_ROWS, LiveTop(t.total)))
  }

  datatype Op =
    | PutOp(c: char) | ClearOp | LeftOp | RightOp
    | AbsoluteOp(row: int, col: int) | OffsetOp(offset: nat) | PageUpOp | PageDownOp

  function Step(t: Term, op: Op): Term
    requires Inv(t)
  {
    match op
    case PutOp(c) => Put(t, c)
    case ClearOp => Cleared()
    case LeftOp => MoveLeft(t)
    case RightOp => MoveRight(t)
    case AbsoluteOp(row, col) => SetAbsolute(t, row, col)
    case OffsetOp(offset) => SetOffset(t, offset)
    case PageUpOp => PageUp(t)
    case PageDownOp => PageDown(t)
  }

  // What the screen shows: the rows from the top of the view, blank past the last.
  function CellAt(t: Term, r: nat, c: nat): char
    requires |t.rows| == SCROLLBACK_ROWS && 0 <= t.top && t.total <= SCROLLBACK_ROWS && c < MAX_COLS
  {
    if t.top + r < t.total then t.rows[t.top + r].cells[c] else ' '
  }

  // ----- the invariant -----

  lemma EnsureRoomInv(t: Term)
    requires |t.rows| == SCROLLBACK_ROWS && 0 <= t.row <= t.total <= SCROLLBACK_ROWS
    requires 1 <= t.total && 0 <= t.col < MAX_COLS
    requires forall r :: 0 <= r < t.total ==> RowOk(t.rows[r])
    requires forall r :: t.total <= r < SCROLLBACK_ROWS ==> t.rows[r] == BLANK
    ensures Inv(SyncView(EnsureRoom(t)))
  {
  }

  lemma NextRowInv(t: Term)
    requires |t.rows| == SCROLLBACK_ROWS && 0 <= t.row < t.total <= SCROLLBACK_ROWS
    requires forall r :: 0 <= r < t.total ==> RowOk(t.rows[r])
    requires forall r :: t.total <= r < SCROLLBACK_ROWS ==> t.rows[r] == BLANK
    ensures Inv(SyncView(NextRow(t)))
  {
    EnsureRoomInv(t.(row := t.row + 1, col := 0));
  }

  lemma PutInv(t: Term, c: char)
    requires Inv(t)
    ensures Inv(Put(t, c))
  {
    hide NextRow;
    if c == '\n' {
      NextRowInv(SetRow(t, t.rows[t.row].(len := t.col, wrapped := false)));
    } else if c != BACKSPACE && t.col + 1 >= MAX_COLS {
      NextRowInv(SetRow(t, Row(t.rows[t.row].cells[t.col := c], t.col + 1, true)).(col := t.col + 1));
    }
  }

  lemma StepInv(t: Term, op: Op)
    requires Inv(t)
    ensures Inv(Step(t, op))
  {
    hide Inv, Put, Cleared, MoveLeft, MoveRight, SetAbsolute, SetOffset, PageUp, PageDown;
    match op
    case PutOp(c) => PutInv(t, c);
    case ClearOp => ClearedInv();
    case LeftOp => LeftInv(t);
    case RightOp => RightInv(t);
    case AbsoluteOp(row, col) => AbsoluteInv(t, row, col);
    case OffsetOp(offset) => OffsetInv(t, offset);
    case PageUpOp => PagingInv(t);
    case PageDownOp => PagingInv(t);
  }

  // Bringing a cursor inside the text in sight.
  lemma ShowCursorInv(t: Term, row: int, col: int)
    requires Inv(t) && 0 <= row < t.total && 0 <= col < MAX_COLS
    ensures Inv(ShowCursor(t.(row := row, col := col)))
  {
  }

  lemma StepBackInside(t: Term)
    requires Inv(t)
    ensures
      var u := StepBack(t);
      0 <= u.row <= t.row && 0 <= u.col < MAX_COLS && u == t.(row := u.row, col := u.col)
  {
  }

  lemma LeftInv(t: Term)
    requires Inv(t)
    ensures Inv(MoveLeft(t))
  {
    hide ShowCursor, StepBack;
    StepBackInside(t);
    ShowCursorInv(t, StepBack(t).row, StepBack(t).col);
  }

  lemma RightInv(t: Term)
    requires Inv(t)
    ensures Inv(MoveRight(t))
  {
    hide ShowCursor;
    var r := t.rows[t.row];
    if t.col < (if r.wrapped then MAX_COLS - 1 else r.len) {
      ShowCursorInv(t, t.row, t.col + 1);
    } else if t.row + 1 < t.total {
      ShowCursorInv(t, t.row + 1, 0);
    }
  }

  lemma AbsoluteInv(t: Term, row: int, col: int)
    requires Inv(t)
    ensures Inv(SetAbsolute(t, row, col))
  {
    hide ShowCursor;
    ShowCursorInv(t, Max(0, Min(row, t.total - 1)), Max(0, Min(col, MAX_COLS - 1)));
  }

  lemma OffsetInv(t: Term, offset: nat)
    requires Inv(t)
    ensures Inv(SetOffset(t, offset))
  {
  }

  lemma PagingInv(t: Term)
    requires Inv(t)
    ensures Inv(PageUp(t)) && Inv(PageDown(t))
  {
  }

  // Any run of operations: the cursor stays inside the text, the text inside the history and the view
  // inside the text, whatever the mix.
  function Run(t: Term, ops: seq<Op>): (u: Term)
    requires Inv(t)
    ensures Inv(u)
    decreases |ops|
  {
    if ops == [] then t
    else
      StepInv(t, ops[0]);
      Run(Step(t, ops[0]), ops[1..])
  }

  lemma ClearedInv()
    ensures Inv(Cleared())
  {
  }
}
