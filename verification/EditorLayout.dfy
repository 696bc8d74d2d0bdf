// The editor's arithmetic for where its cursor stands, and what it is worth.
module EditorLayout {
  import opened NawBase
  import opened TerminalModel
  import opened VisualPosition

  const TEXT_START_ROW := 3
  const START := Pos(TEXT_START_ROW, 0)

  function At(text: seq<char>, i: nat): (p: Pos)
    requires i <= |text|
    ensures p.row >= TEXT_START_ROW && p.col < MAX_COLS
  {
    PosAt(START, text, i)
  }

  // The index a row and column lead to: the first in the row at or past the column, else the last in the
  // row; -1 when the text has no such row.
  predicate IsIndexFor(text: seq<char>, row: int, col: int, r: int) {
    if r == -1 then forall i: nat :: i <= |text| ==> At(text, i).row != row
    else
      && 0 <= r <= |text| && At(text, r).row == row
      && ((At(text, r).col >= col && forall j: nat :: j < r && At(text, j).row == row ==> At(text, j).col < col)
          || (At(text, r).col < col && forall j: nat :: j <= |text| && At(text, j).row == row ==> j <= r))
  }

  lemma AtNext(text: seq<char>, i: nat)
    requires i < |text|
    ensures At(text, i + 1) == StepPos(At(text, i), text[i])
  {
    PosNext(START, text, i);
  }

  lemma AtOrder(text: seq<char>, i: nat, j: nat)
    requires i <= |text| && j <= |text|
    ensures i < j <==> Before(At(text, i), At(text, j))
  {
    if i < j { PositionsIncrease(START, text, i, j); }
    if j < i { PositionsIncrease(START, text, j, i); }
  }

  // Looking up the position of an index finds that index and no other.
  lemma IndexInvertsPosition(text: seq<char>, i: nat, r: int)
    requires i <= |text|
    ensures IsIndexFor(text, At(text, i).row, At(text, i).col, r) <==> r == i
  {
    hide At;
    forall j: nat | j <= |text| ensures i < j <==> Before(At(text, i), At(text, j)) { AtOrder(text, i, j); }
    forall j: nat | j <= |text| ensures j < i <==> Before(At(text, j), At(text, i)) { AtOrder(text, j, i); }
  }

  lemma IndexIsUnique(text: seq<char>, row: int, col: int, r: int, s: int)
    requires IsIndexFor(text, row, col, r) && IsIndexFor(text, row, col, s)
    ensures r == s
  {
    hide At;
    if r >= 0 && s >= 0 {
      AtOrder(text, r, s);
      AtOrder(text, s, r);
    }
  }

  // Inside a row the columns count up from zero.
  lemma ColumnBefore(text: seq<char>, i: nat)
    requires i <= |text| && At(text, i).col > 0
    ensures i > 0 && At(text, i - 1) == Pos(At(text, i).row, At(text, i).col - 1)
  {
    hide At;
    AtStart(text);
    if i > 0 { AtNext(text, i - 1); }
  }

  lemma AtStart(text: seq<char>)
    ensures At(text, 0) == START
  {
  }

  // Every row from the first to that of the end of the text holds an index.
  lemma {:induction false} RowExists(text: seq<char>, row: int, n: nat) returns (i: nat)
    requires n <= |text| && TEXT_START_ROW <= row <= At(text, n).row
    ensures i <= n && At(text, i).row == row
    decreases n
  {
    hide At;
    AtStart(text);
    if At(text, n).row == row {
      i := n;
    } else {
      AtNext(text, n - 1);
      i := RowExists(text, row, n - 1);
    }
  }

  // The last index of a row, looking down from n; -1 when there is none.
  function LastIn(text: seq<char>, row: int, n: nat): (r: int)
    requires n <= |text|
    ensures r == -1 || (0 <= r <= n && At(text, r).row == row)
    ensures forall j: nat :: r < j <= n ==> At(text, j).row != row
  {
    if At(text, n).row == row then n else if n == 0 then -1 else LastIn(text, row, n - 1)
  }

  predicate HasRow(text: seq<char>, row: int) { TEXT_START_ROW <= row <= At(text, |text|).row }

  lemma HasRowIsLast(text: seq<char>, row: int)
    ensures HasRow(text, row) <==> LastIn(text, row, |text|) >= 0
  {
    hide At;
    var r := LastIn(text, row, |text|);
    if HasRow(text, row) { var i := RowExists(text, row, |text|); }
    if r >= 0 { AtOrder(text, r, |text|); }
  }

  // A lookup in a row the text has lands in it, at the wanted column or at the row's last one; in any other
  // row it finds nothing.
  lemma LookupLands(text: seq<char>, row: int, col: nat, r: int)
    requires IsIndexFor(text, row, col, r)
    ensures HasRow(text, row) <==> r >= 0
    ensures r >= 0 ==>
      LastIn(text, row, |text|) >= 0
      && At(text, r) == Pos(row, Min(col, At(text, LastIn(text, row, |text|)).col))
  {
    hide At;
    HasRowIsLast(text, row);
    var last := LastIn(text, row, |text|);
    if r >= 0 {
      assert r <= last;
      if At(text, r).col > col { ColumnBefore(text, r); }
      AtOrder(text, r, last);
    }
  }

  // ----- moving -----

  const KEY_UP := 0x48
  const KEY_DOWN := 0x50
  const KEY_LEFT := 0x4B
  const KEY_RIGHT := 0x4D

  // Where a key takes the cursor: one index aside, or to the adjacent row at the same column, or at its last
  // one, when the text has that row.
  predicate Moved(text: seq<char>, cursor: nat, key: int, cursor': nat)
    requires cursor <= |text|
  {
    && cursor' <= |text|
    && (key == KEY_LEFT ==> cursor' == Max(cursor - 1, 0))
    && (key == KEY_RIGHT ==> cursor' == Min(cursor + 1, |text|))
    && (key == KEY_UP ==> MovedTo(text, cursor, At(text, cursor).row - 1, cursor'))
    && (key == KEY_DOWN ==> MovedTo(text, cursor, At(text, cursor).row + 1, cursor'))
    && (key !in {KEY_LEFT, KEY_RIGHT, KEY_UP, KEY_DOWN} ==> cursor' == cursor)
  }

  predicate MovedTo(text: seq<char>, cursor: nat, row: int, cursor': nat)
    requires cursor <= |text|
  {
    if HasRow(text, row) then
      var last := LastIn(text, row, |text|);
      cursor' <= |text| && last >= 0 && At(text, cursor') == Pos(row, Min(At(text, cursor).col, At(text, last).col))
    else cursor' == cursor
  }

  lemma LookupMoves(text: seq<char>, cursor: nat, row: int, r: int)
    requires cursor <= |text| && IsIndexFor(text, row, At(text, cursor).col, r)
    ensures MovedTo(text, cursor, row, if r >= 0 then r else cursor)
  {
    LookupLands(text, row, At(text, cursor).col, r);
  }

  // The arrow keys by their scan codes: left and right go one index back and on, up and down one row; at the ends
  // of the text, and in its first and its last row, the cursor stays.
  lemma ArrowKeys(text: seq<char>, cursor: nat, key: int, next: nat)
    requires cursor <= |text| && Moved(text, cursor, key, next)
    ensures key == 0x4B ==> if cursor > 0 then next + 1 == cursor else next == 0
    ensures key == 0x4D ==> if cursor < |text| then next == cursor + 1 else next == |text|
    ensures key == 0x48 ==>
      if At(text, cursor).row > 3 then At(text, next).row == At(text, cursor).row - 1 else next == cursor
    ensures key == 0x50 ==>
      if At(text, cursor).row < At(text, |text|).row then At(text, next).row == At(text, cursor).row + 1
      else next == cursor
    ensures key == 0x48 || key == 0x50 ==> At(text, next).col <= At(text, cursor).col
    ensures key !in {0x4B, 0x4D, 0x48, 0x50} ==> next == cursor
  {
    hide At;
    AtOrder(text, cursor, |text|);
  }

  // Down undoes up, and up undoes down, exactly when the row between was long enough to keep the column.
  lemma UpAndDown(text: seq<char>, cursor: nat, next: nat, back: nat, key: int)
    requires cursor <= |text| && (key == KEY_UP || key == KEY_DOWN)
    requires Moved(text, cursor, key, next) && next != cursor
    requires Moved(text, next, if key == KEY_UP then KEY_DOWN else KEY_UP, back)
    ensures back == cursor <==> At(text, next).col == At(text, cursor).col
  {
    hide At;
    AtOrder(text, cursor, |text|);
    AtOrder(text, cursor, back);
    AtOrder(text, back, cursor);
    var row := At(text, cursor).row;
    HasRowIsLast(text, row);
    AtOrder(text, cursor, LastIn(text, row, |text|));
  }
}
