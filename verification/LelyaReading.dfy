// How Lelya texts are read at the edges: which characters names and numbers are made of, a minus sign without a
// left operand, and conditions in which a parenthesis is closed.
module LelyaReading {
  import opened LelyaSyntax
  import opened LelyaGrammar
  import opened LelyaCompiler
  import opened LelyaSize
  import opened LelyaPrinter

  // ----- characters -----

  const LOWER := "abcdefghijklmnopqrstuvwxyz"
  const UPPER := "ABCDEFGHIJKLMNOPQRSTUVWXYZ"
  const DIGITS := "0123456789"

  lemma Characters(c: char)
    ensures IsIdentStart(c) <==> c == '_' || c in LOWER || c in UPPER
    ensures IsDigit(c) <==> c in DIGITS
    ensures IsIdentChar(c) <==> c == '_' || c in LOWER || c in UPPER || c in DIGITS
    ensures IsInlineSpace(c) <==> c in " \t\r"
    ensures IsSpace(c) <==> c in " \t\r\n"
  {
    LowerIn(c);
    UpperIn(c);
    DigitIn(c);
    SpaceIn(c);
  }

  lemma LowerIn(c: char)
    ensures 'a' <= c <= 'z' <==> c in LOWER
  {
    if 'a' <= c <= 'z' { LowerInListed(c); } else if c in LOWER { LowerInOnly(c); }
  }

  lemma LowerInListed(c: char)
    requires 'a' <= c <= 'z'
    ensures c in LOWER
  {
    assert LOWER[(c as int) - ('a' as int)] == c;
  }

  lemma LowerInOnly(c: char)
    requires c in LOWER
    ensures 'a' <= c <= 'z'
  {
  }

  lemma UpperIn(c: char)
    ensures 'A' <= c <= 'Z' <==> c in UPPER
  {
    if 'A' <= c <= 'Z' { UpperInListed(c); } else if c in UPPER { UpperInOnly(c); }
  }

  lemma UpperInListed(c: char)
    requires 'A' <= c <= 'Z'
    ensures c in UPPER
  {
    assert UPPER[(c as int) - ('A' as int)] == c;
  }

  lemma UpperInOnly(c: char)
    requires c in UPPER
    ensures 'A' <= c <= 'Z'
  {
  }

  lemma DigitIn(c: char)
    ensures IsDigit(c) <==> c in DIGITS
  {
    var k := (c as int) - ('0' as int);
    if 0 <= k < 10 { assert DIGITS[k] == c; }
  }

  lemma SpaceIn(c: char)
    ensures IsInlineSpace(c) <==> c in " \t\r"
    ensures IsSpace(c) <==> c in " \t\r\n"
  {
    assert " \t\r"[0] == ' ' && " \t\r"[1] == '\t' && " \t\r"[2] == '\r';
    assert " \t\r\n"[0] == ' ' && " \t\r\n"[1] == '\t' && " \t\r\n"[2] == '\r' && " \t\r\n"[3] == '\n';
  }

  // ----- names -----

  // Two names in a text are one variable exactly when they are the same or agree in their first 15 characters.
  lemma OneVariable(src: string, i: nat, j: nat)
    requires i <= |src| && j <= |src|
    ensures
      var x, y := src[i..IdentEnd(src, i)], src[j..IdentEnd(src, j)];
      Ident(src, i) == Ident(src, j) <==> x == y || (|x| >= 15 && |y| >= 15 && x[..15] == y[..15])
  {
  }

  // ----- a minus sign without a left operand -----

  // -e is read as 0 - e: where a name is expected and none stands, the factor is 0 and nothing is taken.
  lemma MinusReads(src: string, i: nat, e: Expr, gap: string)
    requires Printable(e, 2) && AllInline(gap) && TextAt(src, i, "-" + ExprText(e, 2, gap))
    requires var j := i + 1 + |ExprText(e, 2, gap)|; Stopped(src, j, 0) && CompareOp(src, SkipInline(src, j)).None?
    ensures i <= |src|
    ensures ParseCompare(src, i) == (Bin(Sub, Num(0), e), SkipInline(src, i + 1 + |ExprText(e, 2, gap)|))
  {
    hide ParseTerm, ParseExpr, ParseCompare, ExprText, Printable, AllInline, Reads, TextAt;
    var t := ExprText(e, 2, gap);
    var j := i + 1 + |t|;
    TextParts(src, i, "-", t);
    TextChar(src, i, "-", 0);
    SkipNothing(src, i);
    WeakerStop(src, j, 0, 2);
    WeakerStop(src, j, 0, 1);
    ReadsPrinted(src, i + 1, e, 2, gap);
    NoFactor(src, i);
    assert "-" == OpText(Sub) && At(src, i) == OpText(Sub)[0];
    ReadsSum(src, i, i, i, j, Sub, Num(0), e);
    LiftSum(src, i, j, Bin(Sub, Num(0), e));
    WholeRead(src, i, j, Bin(Sub, Num(0), e));
  }

  // Where an operator stands instead of a factor, 0 is read.
  lemma NoFactor(src: string, i: nat)
    requires i < |src| && At(src, i) == '-'
    ensures Reads(src, i, i, Num(0), 1)
  {
    SkipNothing(src, i);
    assert ParseFactor(src, i) == (Num(0), i);
    ParseTermStart(src, i);
    ParseExprStart(src, i);
  }

  lemma WholeRead(src: string, i: nat, j: nat, e: Expr)
    requires i <= |src| && j <= |src| && Reads(src, i, j, e, 0) && CompareOp(src, SkipInline(src, j)).None?
    ensures ParseCompare(src, i) == (e, SkipInline(src, j))
  {
    hide ParseCompare;
  }

  // ----- a closing parenthesis inside an if's condition -----

  // The block of an if is looked for after the first closing parenthesis: unless a brace follows that one, the if
  // governs nothing, and reading goes on there.
  lemma BlockMissed(src: string, i: nat, loops: nat)
    requires i <= |src| && At(src, SkipInline(src, i)) == '('
    requires
      var k := PastParen(src, SkipInline(src, i) + 1);
      var m := SkipSpace(src, k);
      At(src, m) != '{' && !MatchKeyword(src, m, "else")
    ensures
      var open := SkipInline(src, i);
      ParseIf(src, i, loops) == (If(ParseCompare(src, open + 1).0, Skip), SkipSpace(src, PastParen(src, open + 1)))
  {
    hide ParseCompare, PastParen, MatchKeyword;
  }

  // A condition in parentheses of its own, before a block on the next lines.
  const HASTY := "if((0)){\nprint 7\n}"

  predicate IsHasty(src: string) {
    && |src| == 18 && src[0] == 'i' && src[1] == 'f' && src[2] == '(' && src[3] == '(' && src[4] == '0'
    && src[5] == ')' && src[6] == ')' && src[7] == '{' && src[8] == '\n' && src[9] == 'p' && src[10] == 'r'
    && src[11] == 'i' && src[12] == 'n' && src[13] == 't' && src[14] == ' ' && src[15] == '7' && src[16] == '\n'
    && src[17] == '}'
  }

  lemma HastyIs()
    ensures IsHasty(HASTY)
  {
  }

  // A parenthesised digit before another closing parenthesis.
  lemma HastyCondition(src: string)
    requires IsHasty(src)
    ensures ParseCompare(src, 3) == (Num(0), 6)
  {
    hide ParseName;
    assert ParseFactor(src, 4) == (Num(0), 5) by { OneDigit(src, 4); }
    Closing(src, 4, 5);
    hide ParseFactor;
    assert ParseFactor(src, 3) == (Num(0), 6) by { Parenthesised(src); }
    Closing(src, 3, 6);
  }

  lemma OneDigit(src: string, i: nat)
    requires i < |src| && IsDigit(src[i]) && !IsDigit(At(src, i + 1))
    ensures ParseFactor(src, i) == (Num((src[i] - '0') as int), i + 1)
  {
    assert SkipInline(src, i) == i && src[i] != QUOTE;
    assert Digits(src, i + 1, (src[i] - '0') as int) == ((src[i] - '0') as int, i + 1);
  }

  // A factor before a closing parenthesis is the whole expression.
  lemma Closing(src: string, i: nat, j: nat)
    requires i <= |src| && j < |src| && ParseFactor(src, i).1 == j && At(src, j) == ')'
    ensures ParseExpr(src, i) == ParseFactor(src, i) && ParseCompare(src, i) == ParseFactor(src, i)
  {
    hide ParseFactor;
    SkipNothing(src, j);
    var f := ParseFactor(src, i).0;
    ParseTermStart(src, i);
    assert TermRest(src, j, f) == (f, j);
    ParseExprStart(src, i);
    assert ExprRest(src, j, f) == (f, j);
    ParseCompareStart(src, i);
    assert CompareRest(src, j, f) == (f, j);
  }

  lemma Parenthesised(src: string)
    requires IsHasty(src) && ParseExpr(src, 4) == (Num(0), 5)
    ensures ParseFactor(src, 3) == (Num(0), 6)
  {
    hide ParseExpr;
    SkipNothing(src, 3);
    SkipNothing(src, 5);
  }

  lemma HastyIf(src: string)
    requires IsHasty(src)
    ensures ParseStmt(src, 0, 0) == (If(Num(0), Skip), 6)
  {
    HastyCondition(src);
    hide ParseCompare;
    SkipNothing(src, 2);
    assert Find(src, 5, ')') == 5;
    assert Find(src, 4, ')') == 5;
    BlockMissed(src, 2, 0);
    assert src[0..] == src && src[..2] == "if";
  }

  // The rest of the line is skipped.
  lemma HastyLine(src: string)
    requires IsHasty(src)
    ensures ParseStmt(src, 6, 0) == (Skip, 8) && SkipSpace(src, 8) == 9 && SkipSpace(src, 6) == 6
  {
    hide MatchKeyword;
    KeywordFirst(src, 6, "if");
    KeywordFirst(src, 6, "while");
    KeywordFirst(src, 6, "print");
    KeywordFirst(src, 6, "break");
    KeywordFirst(src, 6, "continue");
    KeywordFirst(src, 6, "int");
    KeywordFirst(src, 6, "read");
    assert Find(src, 8, '\n') == 8;
    assert Find(src, 7, '\n') == 8;
    assert SkipSpace(src, 6) == 6;
  }

  lemma HastyPrint(src: string)
    requires IsHasty(src)
    ensures ParseStmt(src, 9, 0) == (Print(Num(7)), 16) && SkipSpace(src, 16) == 17
  {
    assert src[9..][..5] == "print" && src[14..17] == " " + "7" + "\n";
    KeywordFirst(src, 9, "if");
    KeywordFirst(src, 9, "while");
    hide MatchKeyword, ParsePrint;
    assert ExprText(Num(7), 0, "") == "7" && PrintableLine(Num(7), "");
    ReadsPrint(src, 14, Num(7), "");
  }

  // The if governs nothing, the 7 is printed whatever its condition is, and the compiler does not get past the
  // closing brace.
  lemma HastyReads()
    ensures Parse(HASTY) == Seq(Seq(Seq(Skip, If(Num(0), Skip)), Skip), Print(Num(7))) && !Stops(HASTY)
  {
    HastyIs();
    hide ParseStmt, SkipSpace, HASTY;
    var src := HASTY;
    HastyIf(src);
    HastyLine(src);
    HastyPrint(src);
    hide IsHasty;
    assert At(src, 17) == '}' && At(src, 0) == 'i' && At(src, 6) == ')' && At(src, 9) == 'p' by { HastyAt(src); }
    var one := Seq(Skip, If(Num(0), Skip));
    StmtsNext(src, 0, Skip);
    StmtsNext(src, 6, one);
    StmtsNext(src, 9, Seq(one, Skip));
  }

  lemma HastyAt(src: string)
    requires IsHasty(src)
    ensures At(src, 17) == '}' && At(src, 0) == 'i' && At(src, 6) == ')' && At(src, 9) == 'p'
  {
  }
}
