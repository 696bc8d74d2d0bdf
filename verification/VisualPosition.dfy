// Where on an 80-column page each character of a text stands, as the editor computes it.
module VisualPosition {
  import opened TerminalModel

  datatype Pos = Pos(row: nat, col: nat)

  function StepPos(p: Pos, c: char): Pos {
    if c == '\n' || p.col + 1 >= MAX_COLS then Pos(p.row + 1, 0) else Pos(p.row, p.col + 1)
  }

  // The position after a text that starts at p.
  function Walk(p: Pos, text: seq<char>): (q: Pos)
    ensures q.row >= p.row && (p.col < MAX_COLS ==> q.col < MAX_COLS)
  {
    if text == [] then p else StepPos(Walk(p, text[..|text| - 1]), text[|text| - 1])
  }

  predicate Before(p: Pos, q: Pos) { p.row < q.row || (p.row == q.row && p.col < q.col) }

  lemma WalkSnoc(p: Pos, text: seq<char>, c: char)
    ensures Walk(p, text + [c]) == StepPos(Walk(p, text), c)
  {
    assert (text + [c])[..|text + [c]| - 1] == text;
  }

  lemma {:induction false} WalkConcat(p: Pos, a: seq<char>, b: seq<char>)
    ensures Walk(p, a + b) == Walk(Walk(p, a), b)
  {
    if b == [] {
      assert a + b == a;
    } else {
      assert (a + b)[..|a + b| - 1] == a + b[..|b| - 1];
      WalkConcat(p, a, b[..|b| - 1]);
    }
  }

  // Position of index i in a text.
  function PosAt(p: Pos, text: seq<char>, i: nat): (q: Pos)
    requires i <= |text|
    ensures q.row >= p.row && (p.col < MAX_COLS ==> q.col < MAX_COLS)
  {
    Walk(p, text[..i])
  }

  lemma PosNext(p: Pos, text: seq<char>, i: nat)
    requires i < |text|
    ensures PosAt(p, text, i + 1) == StepPos(PosAt(p, text, i), text[i])
  {
    assert text[..i + 1] == text[..i] + [text[i]];
    WalkSnoc(p, text[..i], text[i]);
  }

  // Later characters stand at later positions.
  lemma {:induction false} PositionsIncrease(p: Pos, text: seq<char>, i: nat, j: nat)
    requires i < j <= |text|
    ensures Before(PosAt(p, text, i), PosAt(p, text, j))
    decreases j
  {
    hide PosAt;
    PosNext(p, text, j - 1);
    if i < j - 1 { PositionsIncrease(p, text, i, j - 1); }
  }

  // On one line, 80 characters stand in a row.
  lemma {:induction false} OneLine(row: nat, text: seq<char>, i: nat)
    requires i <= |text| && '\n' !in text[..i]
    ensures PosAt(Pos(row, 0), text, i) == Pos(row + i / 80, i % 80)
  {
    if i > 0 {
      assert text[..i - 1] <= text[..i] && text[i - 1] in text[..i];
      OneLine(row, text, i - 1);
      PosNext(Pos(row, 0), text, i - 1);
    }
  }

  // A line break leads to the start of the next row.
  lemma LineBreak(p: Pos, text: seq<char>, i: nat)
    requires i < |text| && text[i] == '\n'
    ensures PosAt(p, text, i + 1) == Pos(PosAt(p, text, i).row + 1, 0)
  {
    PosNext(p, text, i);
  }
}
