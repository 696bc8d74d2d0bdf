// Texts that are more than the compiler's arrays hold: code that is read twice, and a loop with too many jumps.
module LelyaOverruns {
  import opened LelyaSyntax
  import opened LelyaGrammar
  import opened LelyaCode
  import opened LelyaCompiler
  import opened LelyaPrinter
  import LelyaBounds
  import opened LelyaSize

  // ----- code read twice -----

  function Stars(n: nat): (s: string)
    ensures |s| == n && forall i :: 0 <= i < n ==> s[i] == '*'
  {
    seq(n, _ => '*')
  }

  // The string of the first line ends after 127 characters, in the middle of the second.
  const TWICE: string := "x=\"\ny=" + Stars(320)

  predicate IsTwice(src: string) {
    && |src| == 326 && src[0] == 'x' && src[1] == '=' && src[2] == QUOTE && src[3] == '\n'
    && src[4] == 'y' && src[5] == '=' && forall i :: 6 <= i < |src| ==> src[i] == '*'
  }

  lemma {:induction false} StarsRun(src: string, i: nat, acc: Expr)
    requires i <= |src| && forall k :: i <= k < |src| ==> src[k] == '*'
    ensures TermRest(src, i, acc).1 == |src| && ExprSize(TermRest(src, i, acc).0) == ExprSize(acc) + 2 * (|src| - i)
    decreases |src| - i
  {
    NoSpaceAt(src, i);
    if i < |src| {
      StarFactor(src, i + 1);
      StarsRun(src, i + 1, Bin(Mul, acc, Num(0)));
    }
  }

  lemma NoSpaceAt(src: string, i: nat)
    requires i <= |src| && !IsInlineSpace(At(src, i))
    ensures SkipInline(src, i) == i
  {
  }

  lemma StarFactor(src: string, i: nat)
    requires i <= |src| && (At(src, i) == '*' || i == |src|)
    ensures ParseFactor(src, i) == (Num(0), i)
  {
    NoSpaceAt(src, i);
  }

  // What follows a factor that only stars come after.
  lemma StarsCompare(src: string, i: nat)
    requires i <= |src| && ParseFactor(src, i).1 <= |src|
    requires forall k :: ParseFactor(src, i).1 <= k < |src| ==> src[k] == '*'
    ensures
      var (f, j) := ParseFactor(src, i);
      ExprSize(ParseCompare(src, i).0) == ExprSize(f) + 2 * (|src| - j)
  {
    hide ParseFactor, ParseTerm, ParseExpr, ParseCompare, TermRest, ExprRest, CompareRest;
    var (f, j) := ParseFactor(src, i);
    StarsRun(src, j, f);
    ParseTermStart(src, i);
    ParseExprStart(src, i);
    ParseCompareStart(src, i);
    NothingFollows(src, TermRest(src, j, f).0);
  }

  lemma NothingFollows(src: string, e: Expr)
    ensures ExprRest(src, |src|, e) == (e, |src|) && CompareRest(src, |src|, e) == (e, |src|)
  {
    NoSpaceAt(src, |src|);
  }

  lemma {:induction false} StringRuns(src: string, i: nat, room: nat)
    requires i + room <= |src| && forall k :: i <= k < i + room ==> src[k] != QUOTE && src[k] != '\0'
    ensures StringEnd(src, i, room) == i + room
    decreases room
  {
    if room > 0 { StringRuns(src, i + 1, room - 1); }
  }

  lemma {:induction false} LineRuns(src: string, i: nat)
    requires i <= |src| && forall k :: i <= k < |src| ==> src[k] == '*'
    ensures LineEnd(src, i) == |src|
    decreases |src| - i
  {
    if i < |src| { LineRuns(src, i + 1); }
  }

  // A one-letter name assigned.
  lemma AssignAt(src: string, i: nat, loops: nat)
    requires i + 1 < |src| && (src[i] == 'x' || src[i] == 'y') && src[i + 1] == '='
    ensures ParseStmt(src, i, loops) == ParseRight(src, Ident(src, i), i + 2)
  {
    hide MatchKeyword, ParseRight, Ident;
    KeywordFirst(src, i, "if");
    KeywordFirst(src, i, "while");
    KeywordFirst(src, i, "print");
    KeywordFirst(src, i, "break");
    KeywordFirst(src, i, "continue");
    KeywordFirst(src, i, "int");
    KeywordFirst(src, i, "read");
    NoSpaceAt(src, i + 1);
    assert SkipSpace(src, i) == i && IdentEnd(src, i + 1) == i + 1;
  }

  lemma FirstString(src: string)
    requires IsTwice(src)
    ensures ParseFactor(src, 2) == (Str(src[3..130]), 130)
  {
    hide StringEnd;
    StringRuns(src, 3, MAX_STRING_LEN - 1);
    NoSpaceAt(src, 2);
  }

  lemma FirstLine(src: string)
    requires IsTwice(src)
    ensures ParseStmt(src, 0, 0).1 == 3 && StmtSize(ParseStmt(src, 0, 0).0) == 394 && SkipSpace(src, 3) == 4
  {
    hide ParseFactor, ParseCompare, ParseStmt, Ident, SkipInline;
    AssignAt(src, 0, 0);
    FirstString(src);
    NoSpaceAt(src, 2);
    StarsCompare(src, 2);
    assert Find(src, 3, '\n') == 3;
  }

  lemma SecondLine(src: string)
    requires IsTwice(src)
    ensures ParseStmt(src, 4, 0).1 == |src| && StmtSize(ParseStmt(src, 4, 0).0) == 642
  {
    hide ParseFactor, ParseCompare, ParseStmt, Ident, SkipInline;
    AssignAt(src, 4, 0);
    StarFactor(src, 6);
    NoSpaceAt(src, 6);
    StarsCompare(src, 6);
    LineRuns(src, 6);
  }

  // 326 characters that compile to 1036 instructions.
  lemma ReadTwice()
    ensures |TWICE| == 326 && Stops(TWICE) && StmtSize(Parse(TWICE)) == 1036 && !CodeFits(Parse(TWICE))
  {
    hide ParseStmt, ParseStmts, SkipSpace, StmtSize, LoopsFit, IsTwice, TWICE;
    TwiceIs();
    FirstLine(TWICE);
    SecondLine(TWICE);
    EndSpace(TWICE);
    var one, two := ParseStmt(TWICE, 0, 0).0, ParseStmt(TWICE, 4, 0).0;
    TwiceStarts(TWICE);
    StmtsNext(TWICE, 0, Skip);
    StmtsNext(TWICE, 4, Seq(Skip, one));
    StmtsLast(TWICE, Seq(Seq(Skip, one), two));
    LelyaBounds.NoCode();
    SeqTables(Skip, one, NO_TABLES);
    SeqTables(Seq(Skip, one), two, NO_TABLES);
  }

  lemma TwiceStarts(src: string)
    requires IsTwice(src)
    ensures |src| == 326 && !AtEnd(At(src, 0)) && !AtEnd(At(src, 4))
  {
  }

  lemma TwiceIs()
    ensures IsTwice(TWICE)
  {
  }

  lemma EndSpace(src: string)
    ensures SkipSpace(src, |src|) == |src|
  {
  }

  // ----- too many jumps -----

  function Breaks(n: nat): Stmt { if n == 0 then Skip else Seq(Breaks(n - 1), Break) }

  // A loop of 33 breaks.
  const MANY_BREAKS := Seq(Skip, While(Num(1), Breaks(33)))

  lemma {:induction false} BreaksPrint(n: nat)
    ensures PrintableBlock(Breaks(n), 1, PLAIN) && |BlockText(Breaks(n), 1, PLAIN)| == 6 * n
  {
    hide StmtText, PrintableStmt;
    if n > 0 {
      BreaksPrint(n - 1);
      BreakPrints();
    }
  }

  lemma BreakPrints()
    ensures PrintableStmt(Break, 1, PLAIN) && |StmtText(Break, 1, PLAIN)| == 6
  {
  }

  lemma {:induction false} BreaksCount(n: nat)
    ensures JumpCount(Breaks(n), true) == n
  {
    if n > 0 { BreaksCount(n - 1); }
  }

  // It is written in 211 characters, and is more than the compiler records for one loop.
  lemma TooManyBreaks()
    ensures PrintableBlock(MANY_BREAKS, 0, PLAIN)
    ensures
      var src := BlockText(MANY_BREAKS, 0, PLAIN);
      && |src| == 211 && Stops(src) && Parse(src) == MANY_BREAKS
      && StmtSize(Parse(src)) < MAX_CODE && !CodeFits(Parse(src))
  {
    hide Breaks, BlockText, PrintableBlock, ParseStmts, StmtSize, LoopsFit, JumpCount, AllInline;
    BreaksPrint(33);
    BreaksCount(33);
    LoopPrints();
    NoGap();
    RoundTrip(MANY_BREAKS, PLAIN);
    LelyaBounds.PrintedFileFits(MANY_BREAKS, PLAIN);
    TooMany();
  }

  lemma NoGap()
    ensures AllInline("")
  {
  }

  lemma TooMany()
    requires JumpCount(Breaks(33), true) == 33
    ensures !LoopsFit(MANY_BREAKS)
  {
    hide Breaks, JumpCount;
    assert !LoopsFit(MANY_BREAKS.second);
  }

  lemma LoopPrints()
    requires PrintableBlock(Breaks(33), 1, PLAIN)
    ensures PrintableBlock(MANY_BREAKS, 0, PLAIN)
    ensures |BlockText(MANY_BREAKS, 0, PLAIN)| == 13 + |BlockText(Breaks(33), 1, PLAIN)|
  {
    hide Breaks;
    LoopHead();
    assert PrintableStmt(MANY_BREAKS.second, 0, PLAIN);
    assert |StmtText(MANY_BREAKS.second, 0, PLAIN)| == 13 + |BlockText(Breaks(33), 1, PLAIN)|;
  }

  lemma LoopHead()
    ensures PrintableLine(Num(1), "") && ExprText(Num(1), 0, "") == "1"
  {
  }
}
