// How much code any text can make the expression compiler emit.
module LelyaBounds {
  import opened LelyaSyntax
  import opened LelyaGrammar
  import opened LelyaCode
  import opened LelyaCompiler
  import opened LelyaPrinter

  // At most two instructions for each character consumed, and one more.
  predicate Within(e: Expr, from: nat, to: nat) {
    from <= to && ExprSize(e) <= 2 * (to - from) + 1
  }

  lemma {:induction false} FactorBound(src: string, i: nat)
    requires i <= |src|
    ensures Within(ParseFactor(src, i).0, i, ParseFactor(src, i).1)
    decreases |src| - i, 0
  {
    var k := SkipInline(src, i);
    if At(src, k) == '(' { SumBound(src, k + 1); }
  }

  lemma {:induction false} TermBound(src: string, i: nat)
    requires i <= |src|
    ensures Within(ParseTerm(src, i).0, i, ParseTerm(src, i).1)
    decreases |src| - i, 2
  {
    hide ParseFactor, TermRest;
    FactorBound(src, i);
    var (f, j) := ParseFactor(src, i);
    TermRestBound(src, j, f);
  }

  // What is read after acc adds at most two instructions for each character.
  lemma {:induction false} TermRestBound(src: string, i: nat, acc: Expr)
    requires i <= |src|
    ensures ExprSize(TermRest(src, i, acc).0) <= ExprSize(acc) + 2 * (TermRest(src, i, acc).1 - i)
    decreases |src| - i, 1
  {
    hide ParseFactor;
    var k := SkipInline(src, i);
    if At(src, k) == '*' || At(src, k) == '/' {
      FactorBound(src, k + 1);
      var (f, j) := ParseFactor(src, k + 1);
      TermRestBound(src, j, Bin(if At(src, k) == '*' then Mul else Div, acc, f));
    }
  }

  lemma {:induction false} SumBound(src: string, i: nat)
    requires i <= |src|
    ensures Within(ParseExpr(src, i).0, i, ParseExpr(src, i).1)
    decreases |src| - i, 4
  {
    hide ParseTerm, ExprRest;
    TermBound(src, i);
    var (t, j) := ParseTerm(src, i);
    SumRestBound(src, j, t);
  }

  lemma {:induction false} SumRestBound(src: string, i: nat, acc: Expr)
    requires i <= |src|
    ensures ExprSize(ExprRest(src, i, acc).0) <= ExprSize(acc) + 2 * (ExprRest(src, i, acc).1 - i)
    decreases |src| - i, 3
  {
    hide ParseTerm;
    var k := SkipInline(src, i);
    if At(src, k) == '+' || At(src, k) == '-' {
      TermBound(src, k + 1);
      var (t, j) := ParseTerm(src, k + 1);
      SumRestBound(src, j, Bin(if At(src, k) == '+' then Add else Sub, acc, t));
    }
  }

  lemma {:induction false} CompareRestBound(src: string, i: nat, acc: Expr)
    requires i <= |src|
    ensures ExprSize(CompareRest(src, i, acc).0) <= ExprSize(acc) + 2 * (CompareRest(src, i, acc).1 - i)
    decreases |src| - i
  {
    hide ParseExpr;
    var k := SkipInline(src, i);
    var here := CompareOp(src, k);
    if here.Some? {
      SumBound(src, k + here.value.1);
      var (e, j) := ParseExpr(src, k + here.value.1);
      CompareRestBound(src, j, Bin(here.value.0, acc, e));
    }
  }

  // On any text at all, the code of an expression has at most 2k + 1 instructions when reading it
  // consumed k characters.
  lemma OutputBound(src: string, i: nat, t: Tables)
    requires i <= |src|
    ensures
      var (e, j) := ParseCompare(src, i);
      i <= j <= |src| && |GenExpr(e, t)| <= 2 * (j - i) + 1
  {
    hide ParseExpr, CompareRest;
    SumBound(src, i);
    var (e, j) := ParseExpr(src, i);
    CompareRestBound(src, j, e);
  }

  // ----- whole programs -----

  // No statement has more code than this.
  function PerChar(src: string): nat { 2 * |src| + 2 }

  lemma {:induction false} BlockOfText(src: string, i: nat, loops: nat, acc: Stmt)
    requires i <= |src|
    ensures
      var (s, j) := ParseStmts(src, i, loops, acc);
      i <= j && StmtSize(s) <= StmtSize(acc) + (j - i) * PerChar(src)
    decreases |src| - i, 3
  {
    hide ParseStmt, PerChar, StmtSize, SkipSpace;
    if !AtEnd(At(src, i)) {
      StmtOfText(src, i, loops);
      var (s, j) := ParseStmt(src, i, loops);
      SeqTables(acc, s, NO_TABLES);
      var k := SkipSpace(src, j);
      BlockOfText(src, k, loops, Seq(acc, s));
      Spread(i, j, k, ParseStmts(src, k, loops, Seq(acc, s)).1, PerChar(src));
    }
  }

  lemma Spread(i: nat, j: nat, k: nat, end: nat, c: nat)
    requires i <= j <= k <= end
    ensures (j - i) * c + (end - k) * c <= (end - i) * c
  {
    Share(j - i, end - k, end - i, c);
  }

  lemma Share(a: nat, b: nat, d: nat, c: nat)
    requires a + b <= d
    ensures a * c + b * c <= d * c
  {
    assert d * c == a * c + b * c + (d - a - b) * c;
    assert (d - a - b) * c >= 0;
  }

  lemma {:induction false} StmtOfText(src: string, i: nat, loops: nat)
    requires i <= |src|
    ensures StmtSize(ParseStmt(src, i, loops).0) <= (ParseStmt(src, i, loops).1 - i) * PerChar(src)
    decreases |src| - SkipSpace(src, i), 2
  {
    hide ParseIf, ParseWhile, ParseSimple, MatchKeyword, PerChar;
    var k := SkipSpace(src, i);
    var end := ParseStmt(src, i, loops).1;
    if AtEnd(At(src, k)) {
      Share(0, 0, end - i, PerChar(src));
    } else {
      Share(end - k, 0, end - i, PerChar(src));
      if MatchKeyword(src, k, "if") {
        KeywordFits(src, k, "if");
        IfOfText(src, k + 2, loops);
      } else if MatchKeyword(src, k, "while") {
        KeywordFits(src, k, "while");
        WhileOfText(src, k + 5, loops);
        Share(end - k - 3, 3, end - k, PerChar(src));
      } else {
        SimpleOfText(src, k, loops);
        Share(1, 0, end - k, PerChar(src));
      }
    }
  }

  lemma OneExpr(src: string, i: nat)
    requires i <= |src|
    ensures ExprSize(ParseCompare(src, i).0) + 1 <= PerChar(src)
  {
    hide ParseCompare;
    OutputBound(src, i, NO_TABLES);
  }

  lemma SimpleOfText(src: string, i: nat, loops: nat)
    requires i <= |src| && !AtEnd(At(src, i)) && !IsSpace(At(src, i))
    ensures StmtSize(ParseSimple(src, i, loops).0) <= PerChar(src)
  {
    hide ParseCompare, MatchKeyword, SkipInline, IdentEnd, Ident;
    forall k: nat | k <= |src| ensures ExprSize(ParseCompare(src, k).0) + 1 <= PerChar(src) { OneExpr(src, k); }
  }

  lemma {:induction false} IfOfText(src: string, i: nat, loops: nat)
    requires i <= |src|
    ensures StmtSize(ParseIf(src, i, loops).0) <= (ParseIf(src, i, loops).1 - i + 2) * PerChar(src)
    decreases |src| - i, 1
  {
    hide ParseCompare, ParseBlock, ParseElse, PerChar, SkipInline, PastParen, StmtSize;
    var c, open, end := PerChar(src), SkipInline(src, i), ParseIf(src, i, loops).1;
    NoCode();
    Share(0, 0, end - i + 2, c);
    if At(src, open) == '(' {
      OneExpr(src, open + 1);
      var b := PastParen(src, open + 1);
      BlockTextOf(src, b, loops);
      var (thn, j) := ParseBlock(src, b, loops);
      ElseOfText(src, j, loops, ParseCompare(src, open + 1).0, thn);
      Spread(b, j, j, end, c);
      Share(1, end - b, end - i + 2, c);
    }
  }

  lemma NoCode()
    ensures StmtSize(Skip) == 0
  {
  }

  lemma {:induction false} ElseOfText(src: string, i: nat, loops: nat, cond: Expr, thn: Stmt)
    requires i <= |src|
    ensures
      var (s, end) := ParseElse(src, i, loops, cond, thn);
      StmtSize(s) <= ExprSize(cond) + 1 + StmtSize(thn) + (end - i) * PerChar(src)
    decreases |src| - i, 5
  {
    hide ParseBlock, MatchKeyword, PerChar, SkipSpace;
    var c, k, end := PerChar(src), SkipSpace(src, i), ParseElse(src, i, loops, cond, thn).1;
    Share(0, 0, end - i, c);
    if MatchKeyword(src, k, "else") {
      KeywordFits(src, k, "else");
      BlockTextOf(src, k + 4, loops);
      SomeChar(src);
      Share(1, end - (k + 4), end - i, c);
    }
  }

  lemma SomeChar(src: string)
    ensures PerChar(src) >= 1
  {
  }

  lemma {:induction false} WhileOfText(src: string, i: nat, loops: nat)
    requires i <= |src|
    ensures StmtSize(ParseWhile(src, i, loops).0) <= (ParseWhile(src, i, loops).1 - i + 2) * PerChar(src)
    decreases |src| - i, 1
  {
    hide ParseCompare, ParseBlock, PerChar, SkipInline, PastParen;
    var c, open, end := PerChar(src), SkipInline(src, i), ParseWhile(src, i, loops).1;
    Share(0, 0, end - i + 2, c);
    if At(src, open) == '(' && loops < MAX_LOOP_DEPTH {
      OneExpr(src, open + 1);
      SomeChar(src);
      var b := PastParen(src, ParseCompare(src, open + 1).1);
      BlockTextOf(src, b, loops + 1);
      Share(2, end - b, end - i + 2, c);
    }
  }

  lemma {:induction false} BlockTextOf(src: string, i: nat, loops: nat)
    requires i <= |src|
    ensures StmtSize(ParseBlock(src, i, loops).0) <= (ParseBlock(src, i, loops).1 - i) * PerChar(src)
    decreases |src| - i, 4
  {
    hide ParseStmts, PerChar;
    var k, end := SkipSpace(src, i), ParseBlock(src, i, loops).1;
    Share(0, 0, end - i, PerChar(src));
    if At(src, k) == '{' {
      BlockOfText(src, k + 1, loops, Skip);
      Share(ParseStmts(src, k + 1, loops, Skip).1 - (k + 1), 0, end - i, PerChar(src));
    }
  }

  // Any text at all compiles to at most |src| * (2 |src| + 2) instructions.
  lemma ProgramBound(src: string)
    ensures StmtSize(Parse(src)) <= |src| * (2 * |src| + 2)
  {
    hide ParseStmts;
    BlockOfText(src, 0, 0, Skip);
    Share(ParseStmts(src, 0, 0, Skip).1, 0, |src|, PerChar(src));
  }

  // ----- breaks and continues -----

  function WordOf(breaks: bool): string { if breaks then "break" else "continue" }

  // How often a keyword stands between i and j.
  function Words(src: string, word: string, i: nat, j: nat): nat
    requires j <= |src|
    decreases j - i
  {
    if i >= j then 0 else (if MatchKeyword(src, i, word) then 1 else 0) + Words(src, word, i + 1, j)
  }

  lemma {:induction false} WordsAdd(src: string, word: string, i: nat, j: nat, k: nat)
    requires i <= j <= k <= |src|
    ensures Words(src, word, i, k) == Words(src, word, i, j) + Words(src, word, j, k)
    decreases j - i
  {
    hide MatchKeyword;
    if i < j { WordsAdd(src, word, i + 1, j, k); }
  }

  // Each keyword stands there at most 32 times.
  predicate FewJumps(src: string) {
    Words(src, "break", 0, |src|) <= MAX_LOOP_JUMPS && Words(src, "continue", 0, |src|) <= MAX_LOOP_JUMPS
  }

  // A statement read from i to j has no more breaks and continues than keywords, on top of those of acc.
  ghost predicate Counted(src: string, i: nat, j: nat, s: Stmt, acc: Stmt)
    requires i <= j <= |src|
  {
    && (forall breaks :: JumpCount(s, breaks) <= JumpCount(acc, breaks) + Words(src, WordOf(breaks), i, j))
    && (FewJumps(src) && LoopsFit(acc) ==> LoopsFit(s))
  }

  // More text around it.
  lemma CountedIn(src: string, i: nat, j: nat, s: Stmt, acc: Stmt, i': nat, j': nat)
    requires i' <= i <= j <= j' <= |src| && Counted(src, i, j, s, acc)
    ensures Counted(src, i', j', s, acc)
  {
    hide Words, JumpCount, LoopsFit, FewJumps;
    forall breaks ensures Words(src, WordOf(breaks), i, j) <= Words(src, WordOf(breaks), i', j') {
      WordsAdd(src, WordOf(breaks), i', i, j');
      WordsAdd(src, WordOf(breaks), i, j, j');
    }
  }

  lemma CountedSeq(src: string, i: nat, j: nat, s: Stmt, acc: Stmt)
    requires i <= j <= |src| && Counted(src, i, j, s, Skip)
    ensures Counted(src, i, j, Seq(acc, s), acc)
  {
    hide Words, FewJumps;
  }

  lemma CountedChain(src: string, i: nat, j: nat, k: nat, a: Stmt, b: Stmt, c: Stmt)
    requires i <= j <= k <= |src| && Counted(src, i, j, b, a) && Counted(src, j, k, c, b)
    ensures Counted(src, i, k, c, a)
  {
    hide Words, JumpCount, LoopsFit, FewJumps;
    forall breaks ensures JumpCount(c, breaks) <= JumpCount(a, breaks) + Words(src, WordOf(breaks), i, k) {
      WordsAdd(src, WordOf(breaks), i, j, k);
    }
  }

  lemma CountedNothing(src: string, i: nat, j: nat, s: Stmt)
    requires i <= j <= |src|
    ensures Counted(src, i, j, s, s)
  {
    hide Words, JumpCount, LoopsFit, FewJumps;
  }

  lemma {:induction false} StmtsCounted(src: string, i: nat, loops: nat, acc: Stmt)
    requires i <= |src|
    ensures Counted(src, i, ParseStmts(src, i, loops, acc).1, ParseStmts(src, i, loops, acc).0, acc)
    decreases |src| - i, 3
  {
    hide ParseStmt, SkipSpace, Counted;
    if AtEnd(At(src, i)) {
      CountedNothing(src, i, i, acc);
    } else {
      var (s, j) := ParseStmt(src, i, loops);
      var n := SkipSpace(src, j);
      StmtCounted(src, i, loops);
      CountedSeq(src, i, j, s, acc);
      CountedIn(src, i, j, Seq(acc, s), acc, i, n);
      StmtsCounted(src, n, loops, Seq(acc, s));
      var (last, end) := ParseStmts(src, n, loops, Seq(acc, s));
      CountedChain(src, i, n, end, acc, Seq(acc, s), last);
    }
  }

  lemma {:induction false} StmtCounted(src: string, i: nat, loops: nat)
    requires i <= |src|
    ensures Counted(src, i, ParseStmt(src, i, loops).1, ParseStmt(src, i, loops).0, Skip)
    decreases |src| - SkipSpace(src, i), 2
  {
    hide ParseIf, ParseWhile, ParseSimple, MatchKeyword, SkipSpace, Counted;
    var k := SkipSpace(src, i);
    var (s, j) := ParseStmt(src, i, loops);
    if AtEnd(At(src, k)) {
      CountedNothing(src, i, k, Skip);
    } else {
      if MatchKeyword(src, k, "if") {
        KeywordFits(src, k, "if");
        IfCounted(src, k + 2, loops);
        CountedIn(src, k + 2, j, s, Skip, k, j);
      } else if MatchKeyword(src, k, "while") {
        KeywordFits(src, k, "while");
        WhileCounted(src, k + 5, loops);
        CountedIn(src, k + 5, j, s, Skip, k, j);
      } else {
        SimpleCounted(src, k, loops);
      }
      CountedIn(src, k, j, s, Skip, i, j);
    }
  }

  // A simple statement is a break or continue only where the keyword stands.
  lemma SimpleCounted(src: string, k: nat, loops: nat)
    requires k <= |src| && !AtEnd(At(src, k)) && !IsSpace(At(src, k))
    ensures Counted(src, k, ParseSimple(src, k, loops).1, ParseSimple(src, k, loops).0, Skip)
  {
    SimpleShape(src, k, loops);
    hide MatchKeyword, ParseSimple, FewJumps;
  }

  lemma SimpleShape(src: string, k: nat, loops: nat)
    requires k <= |src| && !AtEnd(At(src, k)) && !IsSpace(At(src, k))
    ensures
      var s := ParseSimple(src, k, loops).0;
      && (s.Skip? || s.Print? || s.Assign? || s.Read? || s.Break? || s.Continue?)
      && (s.Break? ==> MatchKeyword(src, k, "break")) && (s.Continue? ==> MatchKeyword(src, k, "continue"))
  {
    hide MatchKeyword, ParseCompare, SkipInline, IdentEnd, Ident, LineEnd;
  }

  lemma {:induction false} IfCounted(src: string, i: nat, loops: nat)
    requires i <= |src|
    ensures Counted(src, i, ParseIf(src, i, loops).1, ParseIf(src, i, loops).0, Skip)
    decreases |src| - i, 1
  {
    hide ParseCompare, ParseBlock, ParseElse, SkipInline, PastParen, Counted;
    var open := SkipInline(src, i);
    var (s, end) := ParseIf(src, i, loops);
    if At(src, open) == '(' {
      var m := PastParen(src, open + 1);
      BlockCounted(src, m, loops);
      var (b, j) := ParseBlock(src, m, loops);
      ElseCounted(src, j, loops, ParseCompare(src, open + 1).0, b);
      CountedIn(src, m, j, b, Skip, i, j);
      CountedChain(src, i, j, end, Skip, b, s);
    } else {
      CountedNothing(src, i, end, Skip);
    }
  }

  lemma {:induction false} ElseCounted(src: string, i: nat, loops: nat, cond: Expr, thn: Stmt)
    requires i <= |src|
    ensures
      var (s, j) := ParseElse(src, i, loops, cond, thn);
      Counted(src, i, j, s, thn)
    decreases |src| - i, 5
  {
    hide ParseBlock, MatchKeyword, SkipSpace, Counted;
    var k := SkipSpace(src, i);
    if MatchKeyword(src, k, "else") {
      KeywordFits(src, k, "else");
      BlockCounted(src, k + 4, loops);
      var (f, j) := ParseBlock(src, k + 4, loops);
      CountedIn(src, k + 4, j, f, Skip, i, j);
      CountedBranches(src, i, j, cond, thn, f);
    } else {
      CountedNothing(src, i, k, thn);
      CountedBranch(src, i, k, cond, thn);
    }
  }

  lemma CountedBranch(src: string, i: nat, j: nat, cond: Expr, thn: Stmt)
    requires i <= j <= |src| && Counted(src, i, j, thn, thn)
    ensures Counted(src, i, j, If(cond, thn), thn)
  {
    hide Words, FewJumps;
  }

  lemma CountedBranches(src: string, i: nat, j: nat, cond: Expr, thn: Stmt, els: Stmt)
    requires i <= j <= |src| && Counted(src, i, j, els, Skip)
    ensures Counted(src, i, j, IfElse(cond, thn, els), thn)
  {
    hide Words, FewJumps;
  }

  lemma {:induction false} WhileCounted(src: string, i: nat, loops: nat)
    requires i <= |src|
    ensures Counted(src, i, ParseWhile(src, i, loops).1, ParseWhile(src, i, loops).0, Skip)
    decreases |src| - i, 1
  {
    hide ParseCompare, ParseBlock, SkipInline, PastParen, Words;
    var open := SkipInline(src, i);
    if At(src, open) == '(' && loops < MAX_LOOP_DEPTH {
      var m := PastParen(src, ParseCompare(src, open + 1).1);
      BlockCounted(src, m, loops + 1);
      var (b, j) := ParseBlock(src, m, loops + 1);
      CountedIn(src, m, j, b, Skip, 0, |src|);
    }
  }

  lemma {:induction false} BlockCounted(src: string, i: nat, loops: nat)
    requires i <= |src|
    ensures Counted(src, i, ParseBlock(src, i, loops).1, ParseBlock(src, i, loops).0, Skip)
    decreases |src| - i, 4
  {
    hide ParseStmts, SkipSpace, Counted;
    var k := SkipSpace(src, i);
    var (s, end) := ParseBlock(src, i, loops);
    if At(src, k) == '{' {
      StmtsCounted(src, k + 1, loops, Skip);
      CountedIn(src, k + 1, ParseStmts(src, k + 1, loops, Skip).1, s, Skip, i, end);
    } else {
      CountedNothing(src, i, end, Skip);
    }
  }

  // A text with each keyword at most 32 times has no loop with more jumps than the compiler records.
  lemma FewJumpsFit(src: string)
    requires FewJumps(src)
    ensures LoopsFit(Parse(src))
  {
    hide ParseStmts, FewJumps, Words;
    StmtsCounted(src, 0, 0, Skip);
  }

  // ----- printed programs -----

  lemma {:induction false} PrintedExprBound(e: Expr, level: nat, gap: string)
    requires Printable(e, level)
    ensures ExprSize(e) <= |ExprText(e, level, gap)|
    decreases e, if e.Bin? && Level(e.op) < level then 1 else 0
  {
    match e
    case Bin(op, l, r) =>
      if Level(op) >= level {
        PrintedExprBound(l, Level(op), gap);
        PrintedExprBound(r, Level(op) + 1, gap);
        OpSize(op);
      } else {
        PrintedExprBound(e, 1, gap);
      }
    case Native(id, args) => NativeNameIsName(id);
    case Num(n) => DecimalFirst(n);
    case _ =>
  }

  // A printed program has no more instructions than characters.
  lemma {:induction false} PrintedBound(s: Stmt, loops: nat, style: Style)
    requires PrintableStmt(s, loops, style)
    ensures StmtSize(s) <= |StmtText(s, loops, style)|
    decreases s, 1
  {
    hide ExprText, Printable;
    match s
    case Print(e) => PrintedExprBound(e, 0, style.gap);
    case Assign(_, e) => PrintedExprBound(e, 0, style.gap);
    case If(c, b) =>
      PrintedExprBound(c, 0, style.gap);
      PrintedBlockBound(b, loops, style);
    case IfElse(c, b, f) =>
      PrintedExprBound(c, 0, style.gap);
      PrintedBlockBound(b, loops, style);
      PrintedBlockBound(f, loops, style);
    case While(c, b) =>
      PrintedExprBound(c, 0, style.gap);
      PrintedBlockBound(b, loops + 1, style);
    case _ =>
  }

  lemma {:induction false} PrintedBlockBound(b: Stmt, loops: nat, style: Style)
    requires PrintableBlock(b, loops, style)
    ensures StmtSize(b) <= |BlockText(b, loops, style)|
    decreases b, 2
  {
    hide StmtText, PrintableStmt;
    if b != Skip {
      PrintedBlockBound(b.first, loops, style);
      PrintedBound(b.second, loops, style);
    }
  }

  // So every printed program that fits a file of NawFS, of 512 bytes, fits the compiler's code array.
  lemma PrintedFileFits(prog: Stmt, style: Style)
    requires PrintableBlock(prog, 0, style) && |BlockText(prog, 0, style)| <= 512
    ensures StmtSize(prog) < MAX_CODE
  {
    PrintedBlockBound(prog, 0, style);
  }
}
