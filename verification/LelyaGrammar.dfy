// What text the Lelya compiler reads as what program: a total recursive-descent reading of any
// text, with the compiler's own recovery on malformed input (skipped lines, missing brackets,
// broken native calls) and the places where scanning resumes.
module LelyaGrammar {
  import opened NawBase
  import opened LelyaSyntax

  const QUOTE := '\"'

  // C text: reading at the end gives the terminating zero.
  function At(src: string, i: nat): char {
    if i < |src| then src[i] else '\0'
  }

  predicate IsDigit(c: char) { '0' <= c <= '9' }

  predicate IsIdentStart(c: char) { 'a' <= c <= 'z' || 'A' <= c <= 'Z' || c == '_' }

  predicate IsIdentChar(c: char) { IsIdentStart(c) || IsDigit(c) }

  predicate IsInlineSpace(c: char) { c == ' ' || c == '\t' || c == '\r' }

  predicate IsSpace(c: char) { c == '\n' || IsInlineSpace(c) }

  predicate MatchKeyword(src: string, i: nat, keyword: string)
    requires i <= |src|
  {
    keyword <= src[i..] && !IsIdentChar(At(src, i + |keyword|))
  }

  function SkipInline(src: string, i: nat): (r: nat)
    requires i <= |src|
    ensures i <= r <= |src| && !IsInlineSpace(At(src, r))
    decreases |src| - i
  {
    if IsInlineSpace(At(src, i)) then SkipInline(src, i + 1) else i
  }

  lemma SkipTwice(src: string, j: nat)
    requires j <= |src|
    ensures SkipInline(src, SkipInline(src, j)) == SkipInline(src, j)
  {
  }

  function SkipSpace(src: string, i: nat): (r: nat)
    requires i <= |src|
    ensures i <= r <= |src| && !IsSpace(At(src, r))
    decreases |src| - i
  {
    if IsSpace(At(src, i)) then SkipSpace(src, i + 1) else i
  }

  // The first position from i that holds c or the end of the text.
  function Find(src: string, i: nat, c: char): (r: nat)
    requires i <= |src|
    ensures i <= r <= |src| && (At(src, r) == '\0' || At(src, r) == c)
    decreases |src| - i
  {
    if At(src, i) == '\0' || At(src, i) == c then i else Find(src, i + 1, c)
  }

  function LineEnd(src: string, i: nat): (r: nat)
    requires i <= |src|
    ensures i <= r <= |src|
  {
    Find(src, i, '\n')
  }

  // Past the first closing parenthesis, or at the end of the text.
  function PastParen(src: string, i: nat): (r: nat)
    requires i <= |src|
    ensures i <= r <= |src|
  {
    var j := Find(src, i, ')');
    if At(src, j) == ')' then j + 1 else j
  }

  function IdentEnd(src: string, i: nat): (r: nat)
    requires i <= |src|
    ensures i <= r <= |src| && !IsIdentChar(At(src, r))
    ensures IsIdentChar(At(src, i)) ==> i < r
    decreases |src| - i
  {
    if IsIdentChar(At(src, i)) then IdentEnd(src, i + 1) else i
  }

  function Truncate(s: string, n: nat): (r: string)
    ensures |r| <= n && r <= s
  {
    if |s| <= n then s else s[..n]
  }

  // An identifier is distinguished by its first 15 characters.
  function Ident(src: string, i: nat): (r: string)
    requires i <= |src|
    ensures |r| < MAX_VAR_NAME_LEN
  {
    Truncate(src[i..IdentEnd(src, i)], MAX_VAR_NAME_LEN - 1)
  }

  function Digits(src: string, i: nat, v: int): (r: (int, nat))
    requires i <= |src|
    ensures i <= r.1 <= |src|
    decreases |src| - i
  {
    if IsDigit(At(src, i)) then Digits(src, i + 1, Wrap32(v * 10 + (src[i] - '0') as int)) else (v, i)
  }

  // Where a string literal's body ends: at a quote, at the end of the text, or after 127 characters.
  function StringEnd(src: string, i: nat, room: nat): (r: nat)
    requires i <= |src|
    ensures i <= r <= |src| && r - i <= room
    decreases room
  {
    if room == 0 || At(src, i) == '\0' || At(src, i) == QUOTE then i else StringEnd(src, i + 1, room - 1)
  }

  function TrimRight(s: string): (r: string)
    ensures |r| <= |s|
  {
    if s != [] && (s[|s| - 1] == ' ' || s[|s| - 1] == '\t') then TrimRight(s[..|s| - 1]) else s
  }

  // The end of one native argument: an unquoted closing parenthesis or comma at depth 0.
  function ArgEnd(src: string, i: nat, depth: nat, quoted: bool): (r: nat)
    requires i <= |src|
    ensures i <= r <= |src|
    decreases |src| - i
  {
    var c := At(src, i);
    if c == '\0' then i
    else if quoted then ArgEnd(src, i + 1, depth, c != QUOTE)
    else if c == QUOTE then ArgEnd(src, i + 1, depth, true)
    else if c == '(' then ArgEnd(src, i + 1, depth + 1, false)
    else if c == ')' then if depth == 0 then i else ArgEnd(src, i + 1, depth - 1, false)
    else if c == ',' && depth == 0 then i
    else ArgEnd(src, i + 1, depth, false)
  }

  function ArgText(src: string, i: nat, j: nat): (r: string)
    requires i <= j <= |src|
    ensures |r| < MAX_STRING_LEN
  {
    TrimRight(Truncate(src[i..j], MAX_STRING_LEN - 1))
  }

  // The arguments of a native call from position i on: None when the call is malformed.
  function NativeArgs(src: string, i: nat, args: seq<string>): (r: (Option<seq<string>>, nat))
    requires i <= |src|
    ensures i <= r.1 <= |src|
    ensures r.0.Some? ==> |r.0.value| <= MAX_NATIVE_ARGS || r.0.value == args
    ensures r.0.Some? ==> |r.0.value| - |args| <= r.1 - i
    ensures r.0.Some? && (forall k :: 0 <= k < |args| ==> |args[k]| < MAX_STRING_LEN) ==>
      forall k :: 0 <= k < |r.0.value| ==> |r.0.value[k]| < MAX_STRING_LEN
    decreases |src| - i
  {
    if |args| >= MAX_NATIVE_ARGS then (None, i)
    else
      var start := SkipInline(src, i);
      var end := ArgEnd(src, start, 0, false);
      if end == start then (None, i)
      else
        var args' := args + [ArgText(src, start, end)];
        var next := SkipInline(src, end);
        if At(src, next) == ',' then NativeArgs(src, SkipInline(src, next + 1), args')
        else if At(src, next) == ')' then (Some(args'), next + 1)
        else (None, next)
  }

  datatype NativeCall = NoCall | Malformed(resume: nat) | Call(args: seq<string>, resume: nat)

  // What follows the name of a native function at position i.
  function NativeTail(src: string, i: nat): (r: NativeCall)
    requires i <= |src|
    ensures r.Malformed? ==> i <= r.resume <= |src|
    ensures r.Call? ==> i + |r.args| < r.resume <= |src| && |r.args| <= MAX_NATIVE_ARGS
    ensures r.Call? ==> forall k :: 0 <= k < |r.args| ==> |r.args[k]| < MAX_STRING_LEN
  {
    var open := SkipInline(src, i);
    if At(src, open) != '(' then NoCall
    else
      var first := SkipInline(src, open + 1);
      if At(src, first) == ')' then Call([], first + 1)
      else
        var (args, j) := NativeArgs(src, first, []);
        if args.None? then Malformed(j) else Call(args.value, j)
  }

  // A string literal, from after its opening quote.
  function ParseString(src: string, i: nat): (r: (Expr, nat))
    requires i <= |src|
    ensures i <= r.1 <= |src|
  {
    var j := StringEnd(src, i, MAX_STRING_LEN - 1);
    (Str(src[i..j]), if At(src, j) == QUOTE then j + 1 else j)
  }

  // A native call, a variable, or, when no name starts here, the constant 0.
  function ParseName(src: string, i: nat): (r: (Expr, nat))
    requires i <= |src|
    ensures i <= r.1 <= |src|
  {
    if !IsIdentStart(At(src, i)) then (Num(0), i)
    else
      var name := Ident(src, i);
      var j := IdentEnd(src, i);
      var id := NativeId(name);
      if id < 0 then (Var(name), j)
      else
        match NativeTail(src, j)
        case NoCall => (Var(name), j)
        case Malformed(k) => (Num(0), k)
        case Call(args, k) => (Native(id, args), k)
  }

  function ParseFactor(src: string, i: nat): (r: (Expr, nat))
    requires i <= |src|
    ensures i <= r.1 <= |src|
    decreases |src| - i, 0
  {
    var i := SkipInline(src, i);
    var c := At(src, i);
    if c == QUOTE then ParseString(src, i + 1)
    else if c == '(' then
      var (e, j) := ParseExpr(src, i + 1);
      var k := SkipInline(src, j);
      (e, if At(src, k) == ')' then k + 1 else k)
    else if IsDigit(c) then
      var (v, j) := Digits(src, i, 0);
      (Num(v), j)
    else ParseName(src, i)
  }

  function ParseTerm(src: string, i: nat): (r: (Expr, nat))
    requires i <= |src|
    ensures i <= r.1 <= |src|
    decreases |src| - i, 2
  {
    var (f, j) := ParseFactor(src, i);
    TermRest(src, j, f)
  }

  function TermRest(src: string, i: nat, acc: Expr): (r: (Expr, nat))
    requires i <= |src|
    ensures i <= r.1 <= |src|
    decreases |src| - i, 1
  {
    var k := SkipInline(src, i);
    if At(src, k) == '*' || At(src, k) == '/' then
      var (f, j) := ParseFactor(src, k + 1);
      TermRest(src, j, Bin(if At(src, k) == '*' then Mul else Div, acc, f))
    else (acc, k)
  }

  function ParseExpr(src: string, i: nat): (r: (Expr, nat))
    requires i <= |src|
    ensures i <= r.1 <= |src|
    decreases |src| - i, 4
  {
    var (t, j) := ParseTerm(src, i);
    ExprRest(src, j, t)
  }

  function ExprRest(src: string, i: nat, acc: Expr): (r: (Expr, nat))
    requires i <= |src|
    ensures i <= r.1 <= |src|
    decreases |src| - i, 3
  {
    var k := SkipInline(src, i);
    if At(src, k) == '+' || At(src, k) == '-' then
      var (t, j) := ParseTerm(src, k + 1);
      ExprRest(src, j, Bin(if At(src, k) == '+' then Add else Sub, acc, t))
    else (acc, k)
  }

  // The comparison at position k and its length, None when there is none.
  function CompareOp(src: string, k: nat): (r: Option<(BinOp, nat)>)
    ensures r.Some? ==> 1 <= r.value.1 <= 2 && k + r.value.1 <= |src|
  {
    var c, d := At(src, k), At(src, k + 1);
    if c == '=' && d == '=' then Some((Eq, 2))
    else if c == '!' && d == '=' then Some((Ne, 2))
    else if c == '<' && d == '=' then Some((Le, 2))
    else if c == '>' && d == '=' then Some((Ge, 2))
    else if c == '<' then Some((Lt, 1))
    else if c == '>' then Some((Gt, 1))
    else None
  }

  function ParseCompare(src: string, i: nat): (r: (Expr, nat))
    requires i <= |src|
    ensures i <= r.1 <= |src|
  {
    var (e, j) := ParseExpr(src, i);
    CompareRest(src, j, e)
  }

  function CompareRest(src: string, i: nat, acc: Expr): (r: (Expr, nat))
    requires i <= |src|
    ensures i <= r.1 <= |src|
    decreases |src| - i
  {
    var k := SkipInline(src, i);
    match CompareOp(src, k)
    case None => (acc, k)
    case Some((op, len)) =>
      var (e, j) := ParseExpr(src, k + len);
      CompareRest(src, j, Bin(op, acc, e))
  }

  // ----- statements; loops is the number of loops open around the statement -----

  predicate AtEnd(c: char) { c == '\0' || c == '}' }

  function ParseStmt(src: string, i: nat, loops: nat): (r: (Stmt, nat))
    requires i <= |src|
    ensures i <= r.1 <= |src|
    ensures var k := SkipSpace(src, i); if AtEnd(At(src, k)) then r == (Skip, k) else k < r.1
    decreases |src| - SkipSpace(src, i), 2
  {
    var i := SkipSpace(src, i);
    if AtEnd(At(src, i)) then (Skip, i)
    else if MatchKeyword(src, i, "if") then ParseIf(src, i + 2, loops)
    else if MatchKeyword(src, i, "while") then ParseWhile(src, i + 5, loops)
    else ParseSimple(src, i, loops)
  }

  // One-line statements, from after the keyword: whatever follows on the line is skipped.
  function ParsePrint(src: string, i: nat): (r: (Stmt, nat))
    requires i <= |src|
    ensures i <= r.1 <= |src|
  {
    var j := SkipInline(src, i);
    (Print(ParseCompare(src, j).0), LineEnd(src, j))
  }

  function ParseInt(src: string, i: nat): (r: (Stmt, nat))
    requires i <= |src|
    ensures i <= r.1 <= |src|
  {
    var j := SkipInline(src, i);
    if !IsIdentStart(At(src, j)) then (Skip, LineEnd(src, j))
    else
      var k := SkipInline(src, IdentEnd(src, j));
      if At(src, k) == '=' then ParseRight(src, Ident(src, j), k + 1)
      else (Assign(Ident(src, j), Num(0)), LineEnd(src, k))
  }

  function ParseRead(src: string, i: nat): (r: (Stmt, nat))
    requires i <= |src|
    ensures i <= r.1 <= |src|
  {
    var j := SkipInline(src, i);
    if !IsIdentStart(At(src, j)) then (Skip, LineEnd(src, j))
    else (Read(Ident(src, j)), LineEnd(src, IdentEnd(src, j)))
  }

  function ParseAssign(src: string, i: nat): (r: (Stmt, nat))
    requires i <= |src| && IsIdentStart(At(src, i))
    ensures i < r.1 <= |src|
  {
    var k := SkipInline(src, IdentEnd(src, i));
    if At(src, k) != '=' then (Skip, LineEnd(src, k))
    else ParseRight(src, Ident(src, i), k + 1)
  }

  // The right side of an assignment.
  function ParseRight(src: string, x: string, i: nat): (r: (Stmt, nat))
    requires i <= |src|
    ensures i <= r.1 <= |src|
  {
    (Assign(x, ParseCompare(src, SkipInline(src, i)).0), LineEnd(src, i))
  }

  function ParseSimple(src: string, i: nat, loops: nat): (r: (Stmt, nat))
    requires i <= |src| && !AtEnd(At(src, i)) && !IsSpace(At(src, i))
    ensures i < r.1 <= |src|
  {
    if MatchKeyword(src, i, "print") then ParsePrint(src, i + 5)
    else if MatchKeyword(src, i, "break") then (if loops > 0 then Break else Skip, LineEnd(src, i))
    else if MatchKeyword(src, i, "continue") then (if loops > 0 then Continue else Skip, LineEnd(src, i))
    else if MatchKeyword(src, i, "int") then ParseInt(src, i + 3)
    else if MatchKeyword(src, i, "read") then ParseRead(src, i + 4)
    else if IsIdentStart(At(src, i)) then ParseAssign(src, i)
    else (Skip, LineEnd(src, i))
  }

  // From after the keyword. The block is looked for after the first closing parenthesis.
  function ParseIf(src: string, i: nat, loops: nat): (r: (Stmt, nat))
    requires i <= |src|
    ensures i <= r.1 <= |src|
    decreases |src| - i, 1
  {
    var open := SkipInline(src, i);
    if At(src, open) != '(' then (Skip, LineEnd(src, open))
    else
      var cond := ParseCompare(src, open + 1).0;
      var (thn, j) := ParseBlock(src, PastParen(src, open + 1), loops);
      ParseElse(src, j, loops, cond, thn)
  }

  // From after the then branch.
  function ParseElse(src: string, i: nat, loops: nat, cond: Expr, thn: Stmt): (r: (Stmt, nat))
    requires i <= |src|
    ensures i <= r.1 <= |src|
    ensures (r.0.If? || r.0.IfElse?) && r.0.cond == cond && r.0.thn == thn
    decreases |src| - i, 5
  {
    var k := SkipSpace(src, i);
    if MatchKeyword(src, k, "else") then
      var (els, j) := ParseBlock(src, k + 4, loops);
      (IfElse(cond, thn, els), j)
    else (If(cond, thn), k)
  }

  // From after the keyword. The closing parenthesis is looked for where the condition ended.
  function ParseWhile(src: string, i: nat, loops: nat): (r: (Stmt, nat))
    requires i <= |src|
    ensures i <= r.1 <= |src|
    decreases |src| - i, 1
  {
    var open := SkipInline(src, i);
    if At(src, open) != '(' then (Skip, LineEnd(src, open))
    else if loops >= MAX_LOOP_DEPTH then (Skip, LineEnd(src, open + 1))
    else
      var (cond, j) := ParseCompare(src, open + 1);
      var (body, k) := ParseBlock(src, PastParen(src, j), loops + 1);
      (While(cond, body), k)
  }

  function ParseBlock(src: string, i: nat, loops: nat): (r: (Stmt, nat))
    requires i <= |src|
    ensures i <= r.1 <= |src|
    decreases |src| - i, 4
  {
    var i := SkipSpace(src, i);
    if At(src, i) != '{' then (Skip, i)
    else
      var (s, j) := ParseStmts(src, i + 1, loops, Skip);
      (s, if At(src, j) == '}' then j + 1 else j)
  }

  // Statements up to a closing brace or the end of the text, appended to acc.
  function ParseStmts(src: string, i: nat, loops: nat, acc: Stmt): (r: (Stmt, nat))
    requires i <= |src|
    ensures i <= r.1 <= |src| && AtEnd(At(src, r.1))
    decreases |src| - i, 3
  {
    if AtEnd(At(src, i)) then (acc, i)
    else
      var (s, j) := ParseStmt(src, i, loops);
      ParseStmts(src, SkipSpace(src, j), loops, Seq(acc, s))
  }

  // The whole text. The compiler's top loop stops only at the end of the text.
  function Parse(src: string): Stmt { ParseStmts(src, 0, 0, Skip).0 }

  predicate Stops(src: string) { At(src, ParseStmts(src, 0, 0, Skip).1) == '\0' }
}
