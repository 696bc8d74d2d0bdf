// Printing programs back to text, and the round trip: the compiler reads a printed program as the
// program that was printed.
module LelyaPrinter {
  import opened NawBase
  import opened LelyaSyntax
  import opened LelyaGrammar

  // ----- expressions -----

  // Binding strength: 0 comparisons, 1 sums, 2 products, 3 factors.
  function Level(op: BinOp): nat {
    match op
    case Add => 1 case Sub => 1
    case Mul => 2 case Div => 2
    case _ => 0
  }

  function OpText(op: BinOp): string {
    match op
    case Add => "+" case Sub => "-" case Mul => "*" case Div => "/"
    case Eq => "==" case Ne => "!=" case Le => "<=" case Ge => ">=" case Lt => "<" case Gt => ">"
  }

  function Digit(d: nat): (c: char)
    requires d < 10
    ensures IsDigit(c) && (c - '0') as int == d
  {
    '0' + d as char
  }

  function Decimal(n: nat): string {
    if n < 10 then [Digit(n)] else Decimal(n / 10) + [Digit(n % 10)]
  }

  function NativeName(id: nat): string
    requires id < NATIVE_COUNT
  {
    if id == 0 then "math_eval"
    else if id == 1 then "math_add"
    else if id == 2 then "math_sub"
    else if id == 3 then "math_mul"
    else if id == 4 then "math_div"
    else if id == 5 then "math_pow"
    else if id == 6 then "math_sqrt"
    else if id == 7 then "math_sin"
    else if id == 8 then "math_cos"
    else if id == 9 then "math_tan"
    else if id == 10 then "math_abs"
    else if id == 11 then "math_arg"
    else if id == 12 then "math_conj"
    else if id == 13 then "math_norm"
    else "math_quad"
  }

  predicate AllInline(s: string) { forall c :: c in s ==> IsInlineSpace(c) }

  predicate IsName(x: string) {
    0 < |x| < MAX_VAR_NAME_LEN && IsIdentStart(x[0]) && forall c :: c in x ==> IsIdentChar(c)
  }

  // An argument of a native call is kept as text: it must be trimmed, and closed in itself.
  predicate IsArg(a: string) {
    && 0 < |a| < MAX_STRING_LEN
    && !IsInlineSpace(a[0]) && a[|a| - 1] != ' ' && a[|a| - 1] != '\t'
    && Closed(a, 0, false)
  }

  // Scanning a from the given depth meets no end of the argument, and ends at depth 0 outside quotes.
  predicate Closed(a: string, depth: nat, quoted: bool) {
    if a == [] then depth == 0 && !quoted
    else if a[0] == '\0' then false
    else if quoted then Closed(a[1..], depth, a[0] != QUOTE)
    else if a[0] == QUOTE then Closed(a[1..], depth, true)
    else if a[0] == '(' then Closed(a[1..], depth + 1, false)
    else if a[0] == ')' then depth > 0 && Closed(a[1..], depth - 1, false)
    else !(a[0] == ',' && depth == 0) && Closed(a[1..], depth, false)
  }

  // The expressions the language can write at a level: comparisons are never parenthesised.
  predicate Printable(e: Expr, level: nat) {
    match e
    case Num(n) => 0 <= n < 0x8000_0000
    case Str(s) => |s| < MAX_STRING_LEN && QUOTE !in s && '\0' !in s
    case Var(x) => IsName(x)
    case Native(id, args) => id < NATIVE_COUNT && |args| <= MAX_NATIVE_ARGS && forall a :: a in args ==> IsArg(a)
    case Bin(op, l, r) =>
      (Level(op) >= level || Level(op) >= 1) && Printable(l, Level(op)) && Printable(r, Level(op) + 1)
  }

  function ArgsText(args: seq<string>): string {
    if args == [] then ")" else if |args| == 1 then args[0] + ")" else args[0] + "," + ArgsText(args[1..])
  }

  // The text of e at a level, with the given inline space around operators and inside parentheses.
  function ExprText(e: Expr, level: nat, gap: string): string
    requires Printable(e, level)
    decreases e, if e.Bin? && Level(e.op) < level then 1 else 0
  {
    match e
    case Num(n) => Decimal(n)
    case Str(s) => "\"" + s + "\""
    case Var(x) => x
    case Native(id, args) => NativeName(id) + "(" + ArgsText(args)
    case Bin(op, l, r) =>
      if Level(op) >= level then
        ExprText(l, Level(op), gap) + gap + OpText(op) + gap + ExprText(r, Level(op) + 1, gap)
      else "(" + gap + ExprText(e, 1, gap) + gap + ")"
  }

  predicate TextAt(src: string, i: nat, t: string) {
    i + |t| <= |src| && src[i..i + |t|] == t
  }

  lemma TextParts(src: string, i: nat, s: string, t: string)
    requires TextAt(src, i, s + t)
    ensures TextAt(src, i, s) && TextAt(src, i + |s|, t) && i + |s| + |t| <= |src|
  {
    assert src[i..i + |s|] == src[i..i + |s + t|][..|s|];
    assert src[i + |s|..i + |s| + |t|] == src[i..i + |s + t|][|s|..];
  }

  lemma ThreeTexts(src: string, i: nat, a: string, b: string, c: string, n: nat)
    requires TextAt(src, i, a + b + c) && |a| == n
    ensures TextAt(src, i, a) && TextAt(src, i + n, b) && TextAt(src, i + n + |b|, c)
  {
    TextParts(src, i, a + b, c);
    TextParts(src, i, a, b);
  }

  lemma TextInside(src: string, i: nat, t: string)
    requires TextAt(src, i, t)
    ensures i + |t| <= |src|
  {
  }

  lemma TextChar(src: string, i: nat, t: string, k: nat)
    requires TextAt(src, i, t) && k < |t|
    ensures At(src, i + k) == t[k]
  {
    assert src[i..i + |t|][k] == src[i + k];
  }

  lemma {:induction false} SkipGap(src: string, i: nat, gap: string)
    requires TextAt(src, i, gap) && AllInline(gap)
    ensures SkipInline(src, i) == SkipInline(src, i + |gap|)
    decreases |gap|
  {
    if gap != [] {
      TextChar(src, i, gap, 0);
      assert gap[0] in gap;
      TextParts(src, i, gap[..1], gap[1..]);
      assert gap == gap[..1] + gap[1..];
      SkipGap(src, i + 1, gap[1..]);
    }
  }

  lemma SkipNothing(src: string, i: nat)
    requires i <= |src| && !IsInlineSpace(At(src, i))
    ensures SkipInline(src, i) == i
  {
  }

  // ----- leaves -----

  lemma WrapSmall(n: nat)
    requires n < 0x8000_0000
    ensures Wrap32(n) == n
  {
  }

  lemma {:induction false} DigitsOfDecimal(src: string, i: nat, n: nat)
    requires TextAt(src, i, Decimal(n)) && n < 0x8000_0000
    ensures Digits(src, i, 0) == Digits(src, i + |Decimal(n)|, n)
    ensures Decimal(n) != [] && IsDigit(At(src, i))
    decreases n
  {
    hide Wrap32;
    if n < 10 {
      WrapSmall(n);
      TextChar(src, i, Decimal(n), 0);
    } else {
      TextParts(src, i, Decimal(n / 10), [Digit(n % 10)]);
      DigitsOfDecimal(src, i, n / 10);
      var k := i + |Decimal(n / 10)|;
      TextChar(src, k, [Digit(n % 10)], 0);
      WrapSmall(n);
      assert n / 10 * 10 + n % 10 == n;
    }
  }

  lemma {:induction false} IdentOfName(src: string, i: nat, x: string)
    requires TextAt(src, i, x) && (forall c :: c in x ==> IsIdentChar(c)) && !IsIdentChar(At(src, i + |x|))
    ensures IdentEnd(src, i) == i + |x|
    decreases |x|
  {
    if x != [] {
      TextChar(src, i, x, 0);
      assert x[0] in x;
      assert x == x[..1] + x[1..];
      TextParts(src, i, x[..1], x[1..]);
      IdentOfName(src, i + 1, x[1..]);
    }
  }

  lemma {:induction false} StringOfText(src: string, i: nat, s: string, room: nat)
    requires TextAt(src, i, s) && QUOTE !in s && '\0' !in s && At(src, i + |s|) == QUOTE && |s| <= room
    ensures StringEnd(src, i, room) == i + |s|
    decreases |s|
  {
    if s != [] {
      TextChar(src, i, s, 0);
      assert s[0] in s;
      assert s == s[..1] + s[1..];
      TextParts(src, i, s[..1], s[1..]);
      StringOfText(src, i + 1, s[1..], room - 1);
    }
  }

  lemma {:induction false} ArgOfText(src: string, i: nat, a: string, depth: nat, quoted: bool)
    requires TextAt(src, i, a) && Closed(a, depth, quoted)
    requires At(src, i + |a|) == ',' || At(src, i + |a|) == ')'
    ensures ArgEnd(src, i, depth, quoted) == i + |a|
    decreases |a|
  {
    if a != [] {
      TextChar(src, i, a, 0);
      assert a == a[..1] + a[1..];
      TextParts(src, i, a[..1], a[1..]);
      var c := a[0];
      if quoted { ArgOfText(src, i + 1, a[1..], depth, c != QUOTE); }
      else if c == QUOTE { ArgOfText(src, i + 1, a[1..], depth, true); }
      else if c == '(' { ArgOfText(src, i + 1, a[1..], depth + 1, false); }
      else if c == ')' { ArgOfText(src, i + 1, a[1..], depth - 1, false); }
      else { ArgOfText(src, i + 1, a[1..], depth, false); }
    }
  }

  lemma OneArg(src: string, i: nat, a: string)
    requires TextAt(src, i, a) && IsArg(a)
    requires At(src, i + |a|) == ',' || At(src, i + |a|) == ')'
    ensures SkipInline(src, i) == i && ArgEnd(src, i, 0, false) == i + |a|
    ensures SkipInline(src, i + |a|) == i + |a| && ArgText(src, i, i + |a|) == a
  {
    TextChar(src, i, a, 0);
    SkipNothing(src, i);
    ArgOfText(src, i, a, 0, false);
    SkipNothing(src, i + |a|);
  }

  lemma {:induction false} ArgsOfText(src: string, i: nat, args: seq<string>, done: seq<string>)
    requires TextAt(src, i, ArgsText(args)) && args != [] && |done| + |args| <= MAX_NATIVE_ARGS
    requires forall a :: a in args ==> IsArg(a)
    ensures NativeArgs(src, i, done) == (Some(done + args), i + |ArgsText(args)|)
    decreases |args|
  {
    hide IsArg, ArgEnd, SkipInline, NativeArgs, ArgText, TextAt;
    var a := args[0];
    assert IsArg(a);
    if |args| == 1 {
      LastArg(src, i, a, done);
      assert args == [a];
    } else {
      var rest := args[1..];
      TextParts(src, i, a + ",", ArgsText(rest));
      TextParts(src, i, a, ",");
      TextChar(src, i + |a|, ",", 0);
      assert rest[0] in args;
      FirstArgChar(src, i + |a| + 1, rest);
      MoreArgs(src, i, a, done);
      ArgsOfText(src, i + |a| + 1, rest, done + [a]);
      assert done + args == done + [a] + rest;
    }
  }

  lemma LastArg(src: string, i: nat, a: string, done: seq<string>)
    requires TextAt(src, i, a + ")") && IsArg(a) && |done| < MAX_NATIVE_ARGS
    ensures NativeArgs(src, i, done) == (Some(done + [a]), i + |a| + 1)
  {
    hide IsArg, ArgEnd, SkipInline, NativeArgs, ArgText, TextAt;
    TextParts(src, i, a, ")");
    TextChar(src, i + |a|, ")", 0);
    OneArg(src, i, a);
    ArgNotEmpty(a);
    NativeArgsStep(src, i, done);
  }

  lemma MoreArgs(src: string, i: nat, a: string, done: seq<string>)
    requires TextAt(src, i, a) && i + |a| < |src| && At(src, i + |a|) == ',' && IsArg(a) && |done| < MAX_NATIVE_ARGS
    requires !IsInlineSpace(At(src, i + |a| + 1))
    ensures NativeArgs(src, i, done) == NativeArgs(src, i + |a| + 1, done + [a])
  {
    hide IsArg, ArgEnd, SkipInline, NativeArgs, ArgText, TextAt;
    OneArg(src, i, a);
    ArgNotEmpty(a);
    SkipNothing(src, i + |a| + 1);
    NativeArgsStep(src, i, done);
  }

  lemma ArgNotEmpty(a: string)
    requires IsArg(a)
    ensures |a| > 0
  {
  }

  lemma NativeArgsStep(src: string, i: nat, args: seq<string>)
    requires i <= |src| && |args| < MAX_NATIVE_ARGS
    ensures
      var start := SkipInline(src, i);
      var end := ArgEnd(src, start, 0, false);
      var args' := args + [ArgText(src, start, end)];
      var next := SkipInline(src, end);
      && (end > start && At(src, next) == ',' ==>
          NativeArgs(src, i, args) == NativeArgs(src, SkipInline(src, next + 1), args'))
      && (end > start && At(src, next) == ')' ==> NativeArgs(src, i, args) == (Some(args'), next + 1))
  {
  }

  lemma FirstArgChar(src: string, i: nat, args: seq<string>)
    requires TextAt(src, i, ArgsText(args)) && args != [] && IsArg(args[0])
    ensures !IsInlineSpace(At(src, i)) && At(src, i) != ')'
  {
    TextChar(src, i, ArgsText(args), 0);
    assert ArgsText(args)[0] == args[0][0];
    assert Closed(args[0], 0, false);
  }

  lemma NativeNameIs(id: nat)
    requires id < NATIVE_COUNT
    ensures NativeId(NativeName(id)) == id
  {
    var x := NativeName(id);
    assert |x| >= 8 && x[5] == x[5] && x[6] == x[6] && x[7] == x[7];
  }

  // ----- expressions: what is read where e ends at j and reading goes on from there -----

  ghost predicate Reads(src: string, i: nat, j: nat, e: Expr, level: nat)
    requires i <= |src| && j <= |src|
  {
    if level >= 3 then ParseFactor(src, i) == (e, j)
    else if level == 2 then ParseTerm(src, i) == TermRest(src, j, e)
    else if level == 1 then ParseExpr(src, i) == ExprRest(src, j, e)
    else ParseCompare(src, i) == CompareRest(src, j, e)
  }

  // What follows at j cannot be taken for a continuation at a tighter level.
  predicate Stopped(src: string, j: nat, level: nat) {
    && j <= |src| && !IsIdentChar(At(src, j))
    && var c := At(src, SkipInline(src, j));
      && c != '('
      && (level <= 1 ==> c != '*' && c != '/')
      && (level == 0 ==> c != '+' && c != '-')
  }

  // Reading at a looser level, where nothing continues the expression in between.
  lemma Lift(src: string, i: nat, j: nat, e: Expr, from: nat, to: nat)
    requires i <= |src| && j <= |src| && to <= from <= 3
    requires Reads(src, i, j, e, from) && Stopped(src, j, to)
    ensures Reads(src, i, j, e, to)
    decreases from - to
  {
    hide Reads, Stopped;
    if to < from {
      if from == 3 { LiftFactor(src, i, j, e); }
      else if from == 2 { LiftTerm(src, i, j, e, to); }
      else { LiftSum(src, i, j, e); }
      Lift(src, i, j, e, from - 1, to);
    }
  }

  lemma LiftFactor(src: string, i: nat, j: nat, e: Expr)
    requires i <= |src| && j <= |src| && Reads(src, i, j, e, 3)
    ensures Reads(src, i, j, e, 2)
  {
    hide ParseFactor;
  }

  lemma LiftTerm(src: string, i: nat, j: nat, e: Expr, to: nat)
    requires i <= |src| && j <= |src| && to <= 1 && Reads(src, i, j, e, 2) && Stopped(src, j, to)
    ensures Reads(src, i, j, e, 1)
  {
    hide ParseTerm;
    var k := SkipInline(src, j);
    SkipTwice(src, j);
    assert TermRest(src, j, e) == (e, k);
    RestSkips(src, j, k, e);
  }

  lemma LiftSum(src: string, i: nat, j: nat, e: Expr)
    requires i <= |src| && j <= |src| && Reads(src, i, j, e, 1) && Stopped(src, j, 0)
    ensures Reads(src, i, j, e, 0)
  {
    hide ParseExpr;
    var k := SkipInline(src, j);
    SkipTwice(src, j);
    assert ExprRest(src, j, e) == (e, k);
    RestSkips(src, j, k, e);
  }

  lemma RestSkips(src: string, i: nat, j: nat, e: Expr)
    requires i <= |src| && j <= |src| && SkipInline(src, i) == SkipInline(src, j)
    ensures TermRest(src, i, e) == TermRest(src, j, e)
    ensures ExprRest(src, i, e) == ExprRest(src, j, e)
    ensures CompareRest(src, i, e) == CompareRest(src, j, e)
  {
    hide ParseFactor, ParseTerm, ParseExpr, SkipInline;
  }

  // Only the first character after inline space matters to a reader of factors, terms or sums.
  lemma SkipReads(src: string, i: nat, j: nat)
    requires i <= |src| && j <= |src| && SkipInline(src, i) == SkipInline(src, j)
    ensures ParseFactor(src, i) == ParseFactor(src, j)
    ensures ParseTerm(src, i) == ParseTerm(src, j)
    ensures ParseExpr(src, i) == ParseExpr(src, j)
    ensures ParseCompare(src, i) == ParseCompare(src, j)
  {
    hide TermRest, ExprRest, CompareRest;
  }

  // An operation: its left operand read up to jl, the operator at k, its right operand from r0 to j.
  lemma ReadsOperation(src: string, i: nat, jl: nat, k: nat, r0: nat, j: nat, op: BinOp, l: Expr, r: Expr)
    requires i <= |src| && jl <= |src| && k <= |src| && r0 <= |src| && j <= |src|
    requires Reads(src, i, jl, l, Level(op)) && SkipInline(src, jl) == k
    requires TextAt(src, k, OpText(op)) && r0 == k + |OpText(op)| && At(src, r0) != '='
    requires Reads(src, r0, j, r, Level(op) + 1) && Stopped(src, j, Level(op))
    ensures Reads(src, i, j, Bin(op, l, r), Level(op))
  {
    hide Reads, Stopped, SkipInline, TextAt, CompareOp, OpText;
    OpSize(op);
    TextChar(src, k, OpText(op), 0);
    if Level(op) == 2 {
      ReadsProduct(src, i, jl, k, j, op, l, r);
    } else if Level(op) == 1 {
      ReadsSum(src, i, jl, k, j, op, l, r);
    } else {
      OperatorAt(src, k, op);
      ReadsComparison(src, i, jl, k, r0, j, op, l, r);
    }
  }

  lemma OpSize(op: BinOp)
    ensures 1 <= |OpText(op)| <= 2 && Level(op) <= 2 && (Level(op) > 0 ==> |OpText(op)| == 1)
  {
  }

  lemma ReadsProduct(src: string, i: nat, jl: nat, k: nat, j: nat, op: BinOp, l: Expr, r: Expr)
    requires i <= |src| && jl <= |src| && k < |src| && j <= |src| && Level(op) == 2
    requires Reads(src, i, jl, l, 2) && SkipInline(src, jl) == k && At(src, k) == OpText(op)[0]
    requires Reads(src, k + 1, j, r, 3)
    ensures Reads(src, i, j, Bin(op, l, r), 2)
  {
    hide ParseFactor, ParseTerm, SkipInline;
    assert TermRest(src, jl, l) == TermRest(src, j, Bin(op, l, r));
  }

  lemma SumOperator(op: BinOp)
    requires Level(op) == 1
    ensures OpText(op)[0] == (if op == Add then '+' else '-') && (op == Add || op == Sub)
  {
  }

  lemma ReadsSum(src: string, i: nat, jl: nat, k: nat, j: nat, op: BinOp, l: Expr, r: Expr)
    requires i <= |src| && jl <= |src| && k < |src| && j <= |src| && Level(op) == 1
    requires Reads(src, i, jl, l, 1) && SkipInline(src, jl) == k && At(src, k) == OpText(op)[0]
    requires Reads(src, k + 1, j, r, 2) && Stopped(src, j, 1)
    ensures Reads(src, i, j, Bin(op, l, r), 1)
  {
    hide ParseFactor, ParseTerm, ParseExpr, SkipInline, ParseCompare, CompareRest, CompareOp;
    var m := SkipInline(src, j);
    SkipTwice(src, j);
    RestSkips(src, j, m, Bin(op, l, r));
    SumOperator(op);
    assert ParseTerm(src, k + 1) == (r, m);
    assert ExprRest(src, jl, l) == ExprRest(src, m, Bin(op, l, r));
  }

  lemma ReadsComparison(src: string, i: nat, jl: nat, k: nat, r0: nat, j: nat, op: BinOp, l: Expr, r: Expr)
    requires i <= |src| && jl <= |src| && k <= |src| && r0 <= |src| && j <= |src| && Level(op) == 0
    requires Reads(src, i, jl, l, 0) && SkipInline(src, jl) == k && CompareOp(src, k) == Some((op, r0 - k)) && k <= r0
    requires Reads(src, r0, j, r, 1) && Stopped(src, j, 0)
    ensures Reads(src, i, j, Bin(op, l, r), 0)
  {
    var m := SkipInline(src, j);
    SkipTwice(src, j);
    RestSkips(src, j, m, Bin(op, l, r));
    hide ParseFactor, ParseTerm, ParseExpr, ParseCompare, SkipInline, CompareOp;
    assert ParseExpr(src, r0) == (r, m);
    assert CompareRest(src, jl, l) == CompareRest(src, m, Bin(op, l, r));
  }

  lemma OperatorAt(src: string, k: nat, op: BinOp)
    requires Level(op) == 0 && TextAt(src, k, OpText(op)) && At(src, k + |OpText(op)|) != '='
    ensures CompareOp(src, k) == Some((op, |OpText(op)|))
  {
    TextChar(src, k, OpText(op), 0);
    if |OpText(op)| == 2 { TextChar(src, k, OpText(op), 1); }
  }

  lemma {:induction false} FirstChar(e: Expr, level: nat, gap: string)
    requires Printable(e, level)
    ensures var t := ExprText(e, level, gap); t != [] && !IsInlineSpace(t[0]) && t[0] != '=' && t[0] != '\0'
    decreases e, if e.Bin? && Level(e.op) < level then 1 else 0
  {
    match e
    case Num(n) => DecimalFirst(n);
    case Bin(op, l, r) =>
      if Level(op) >= level { FirstChar(l, Level(op), gap); }
    case Var(x) => assert x[0] in x;
    case Native(id, _) => assert NativeName(id)[0] == 'm';
    case _ =>
  }

  lemma {:induction false} DecimalFirst(n: nat)
    ensures Decimal(n) != [] && IsDigit(Decimal(n)[0])
  {
    if n >= 10 { DecimalFirst(n / 10); }
  }

  lemma ReadsLeaf(src: string, i: nat, e: Expr, gap: string)
    requires !e.Bin? && Printable(e, 3) && TextAt(src, i, ExprText(e, 3, gap))
    requires Stopped(src, i + |ExprText(e, 3, gap)|, 3)
    ensures Reads(src, i, i + |ExprText(e, 3, gap)|, e, 3)
  {
    hide ParseString, ParseName, Digits, TextAt, Stopped, Decimal, IsName, IsArg, ArgsText, SkipInline, NativeName;
    FirstChar(e, 3, gap);
    TextChar(src, i, ExprText(e, 3, gap), 0);
    TextInside(src, i, ExprText(e, 3, gap));
    SkipNothing(src, i);
    match e
    case Num(n) => ReadsNum(src, i, n);
    case Str(s) => ReadsString(src, i, s);
    case Var(x) => ReadsVar(src, i, x);
    case Native(id, args) => ReadsNative(src, i, id, args);
  }

  lemma ReadsNum(src: string, i: nat, n: nat)
    requires n < 0x8000_0000 && TextAt(src, i, Decimal(n)) && Stopped(src, i + |Decimal(n)|, 3)
    ensures IsDigit(At(src, i)) && i <= |src| && Digits(src, i, 0) == (n, i + |Decimal(n)|)
  {
    hide Decimal;
    DigitsOfDecimal(src, i, n);
  }

  lemma ReadsString(src: string, i: nat, s: string)
    requires |s| < MAX_STRING_LEN && QUOTE !in s && '\0' !in s && TextAt(src, i, "\"" + s + "\"")
    ensures At(src, i) == QUOTE && i < |src| && ParseString(src, i + 1) == (Str(s), i + |s| + 2)
  {
    TextParts(src, i, "\"" + s, "\"");
    TextParts(src, i, "\"", s);
    TextChar(src, i, "\"", 0);
    TextChar(src, i + 1 + |s|, "\"", 0);
    StringOfText(src, i + 1, s, MAX_STRING_LEN - 1);
  }

  lemma ReadsVar(src: string, i: nat, x: string)
    requires IsName(x) && TextAt(src, i, x) && Stopped(src, i + |x|, 3)
    ensures i <= |src| && IsIdentStart(At(src, i)) && ParseName(src, i) == (Var(x), i + |x|)
  {
    hide NativeId;
    TextChar(src, i, x, 0);
    IdentOfName(src, i, x);
  }

  lemma ReadsNative(src: string, i: nat, id: nat, args: seq<string>)
    requires id < NATIVE_COUNT && |args| <= MAX_NATIVE_ARGS && forall a :: a in args ==> IsArg(a)
    requires TextAt(src, i, NativeName(id) + "(" + ArgsText(args))
    ensures i <= |src| && IsIdentStart(At(src, i))
    ensures ParseName(src, i) == (Native(id, args), i + |NativeName(id)| + 1 + |ArgsText(args)|)
  {
    hide ArgsText, IsArg, TextAt, ParseName, NativeName, NativeArgs, SkipInline, NativeId, Ident, IdentEnd;
    var x := NativeName(id);
    var open := i + |x|;
    ThreeTexts(src, i, x, "(", ArgsText(args), |x|);
    TextInside(src, open + 1, ArgsText(args));
    TextChar(src, open, "(", 0);
    NativeNameIsName(id);
    NativeNameRead(src, i, id);
    SkipNothing(src, open);
    ReadsArgs(src, open + 1, args);
    ReadsCall(src, i, id, open, args, open + 1 + |ArgsText(args)|);
  }

  lemma NativeNameRead(src: string, i: nat, id: nat)
    requires id < NATIVE_COUNT && TextAt(src, i, NativeName(id)) && !IsIdentChar(At(src, i + |NativeName(id)|))
    ensures i <= |src| && IsIdentStart(At(src, i)) && IdentEnd(src, i) == i + |NativeName(id)|
    ensures NativeId(Ident(src, i)) == id
  {
    NativeNameIs(id);
    NativeNameIsName(id);
    hide NativeId, NativeName, TextAt, IdentEnd, Ident, IsName;
    NameRead(src, i, NativeName(id));
  }

  lemma NameRead(src: string, i: nat, x: string)
    requires IsName(x) && TextAt(src, i, x) && !IsIdentChar(At(src, i + |x|))
    ensures i <= |src| && IsIdentStart(At(src, i)) && IdentEnd(src, i) == i + |x| && Ident(src, i) == x
  {
    hide IdentEnd;
    TextChar(src, i, x, 0);
    IdentOfName(src, i, x);
  }

  lemma ReadsCall(src: string, i: nat, id: nat, open: nat, args: seq<string>, end: nat)
    requires i <= |src| && IsIdentStart(At(src, i)) && id < NATIVE_COUNT && NativeId(Ident(src, i)) == id
    requires IdentEnd(src, i) == open < |src| && At(src, open) == '(' && SkipInline(src, open + 1) == open + 1
    requires if At(src, open + 1) == ')' then args == [] && end == open + 2
             else NativeArgs(src, open + 1, []) == (Some(args), end)
    ensures ParseName(src, i) == (Native(id, args), end)
  {
    hide NativeId, Ident, IdentEnd, NativeArgs;
    assert SkipInline(src, open) == open;
  }

  lemma NativeNameIsName(id: nat)
    requires id < NATIVE_COUNT
    ensures IsName(NativeName(id))
  {
  }

  lemma ReadsArgs(src: string, i: nat, args: seq<string>)
    requires |args| <= MAX_NATIVE_ARGS && (forall a :: a in args ==> IsArg(a)) && TextAt(src, i, ArgsText(args))
    ensures SkipInline(src, i) == i
    ensures if At(src, i) == ')' then args == [] else NativeArgs(src, i, []) == (Some(args), i + |ArgsText(args)|)
    ensures args == [] ==> At(src, i) == ')' && |ArgsText(args)| == 1
  {
    hide IsArg, NativeArgs;
    if args == [] {
      TextChar(src, i, ")", 0);
      SkipNothing(src, i);
    } else {
      assert args[0] in args;
      FirstArgChar(src, i, args);
      SkipNothing(src, i);
      ArgsOfText(src, i, args, []);
      assert [] + args == args;
    }
  }

  // The parser run on the printed text of an expression consumes exactly that text and reads back
  // that expression: left association, three levels, and parentheses around sums and products.
  lemma {:induction false} ReadsPrinted(src: string, i: nat, e: Expr, level: nat, gap: string)
    requires Printable(e, level) && level <= 3 && AllInline(gap)
    requires TextAt(src, i, ExprText(e, level, gap)) && Stopped(src, i + |ExprText(e, level, gap)|, level)
    ensures Reads(src, i, i + |ExprText(e, level, gap)|, e, level)
    decreases e, if e.Bin? && Level(e.op) < level then 1 else 0
  {
    hide Reads, ParseFactor, ParseTerm, ParseExpr, ParseCompare, TermRest, ExprRest, CompareRest, AllInline,
      SkipInline, Stopped, ExprText, Printable, TextAt;
    TextInside(src, i, ExprText(e, level, gap));
    var j := i + |ExprText(e, level, gap)|;
    if !e.Bin? {
      LeafText(e, level, gap);
      WeakerStop(src, j, level, 3);
      ReadsLeaf(src, i, e, gap);
      Lift(src, i, j, e, 3, level);
    } else if Level(e.op) < level {
      ParenParts(src, i, e, level, gap);
      ParenStops(src, i, e, level, gap);
      ReadsPrinted(src, i + 1 + |gap|, e, 1, gap);
      ReadsParens(src, i, e, level, gap);
      Lift(src, i, j, e, 3, level);
    } else {
      var L := Level(e.op);
      BinaryParts(src, i, e, level, gap);
      var r1 := i + |ExprText(e.left, L, gap)| + |gap| + |OpText(e.op)| + |gap|;
      BinaryStops(src, i, e, level, gap);
      ReadsPrinted(src, i, e.left, L, gap);
      ReadsPrinted(src, r1, e.right, L + 1, gap);
      ReadsBinary(src, i, e, level, gap);
      Lift(src, i, j, e, L, level);
    }
  }

  lemma LeafText(e: Expr, level: nat, gap: string)
    requires !e.Bin? && Printable(e, level)
    ensures Printable(e, 3) && ExprText(e, 3, gap) == ExprText(e, level, gap)
  {
  }

  lemma WeakerStop(src: string, j: nat, a: nat, b: nat)
    requires Stopped(src, j, a) && a <= b
    ensures Stopped(src, j, b)
  {
  }

  // Where the text inside the parentheses ends.
  lemma ParenStops(src: string, i: nat, e: Expr, level: nat, gap: string)
    requires e.Bin? && Level(e.op) < level && Printable(e, level) && AllInline(gap)
    requires TextAt(src, i, ExprText(e, level, gap))
    ensures Printable(e, 1)
    ensures
      var c := i + 1 + |gap| + |ExprText(e, 1, gap)|;
      Stopped(src, c, 0) && Stopped(src, c, 1) && SkipInline(src, c) == c + |gap|
  {
    hide Reads, ParseFactor, ParseTerm, ParseExpr, ParseCompare, TermRest, ExprRest, CompareRest, AllInline,
      SkipInline, Stopped, ExprText, Printable, TextAt;
    ParenParts(src, i, e, level, gap);
    var c := i + 1 + |gap| + |ExprText(e, 1, gap)|;
    TextChar(src, c + |gap|, ")", 0);
    GapStops(src, c, gap, 0);
    WeakerStop(src, c, 0, 1);
  }

  lemma ReadsParens(src: string, i: nat, e: Expr, level: nat, gap: string)
    requires e.Bin? && Level(e.op) < level && Printable(e, level) && Printable(e, 1) && level <= 3 && AllInline(gap)
    requires TextAt(src, i, ExprText(e, level, gap))
    requires i + 1 + |gap| + |ExprText(e, 1, gap)| <= |src|
    requires Reads(src, i + 1 + |gap|, i + 1 + |gap| + |ExprText(e, 1, gap)|, e, 1)
    ensures i + |ExprText(e, level, gap)| <= |src|
    ensures Reads(src, i, i + |ExprText(e, level, gap)|, e, 3)
  {
    hide Reads, ParseFactor, ParseTerm, ParseExpr, ParseCompare, TermRest, ExprRest, CompareRest, AllInline,
      SkipInline, Stopped, ExprText, Printable, TextAt;
    ParenParts(src, i, e, level, gap);
    ParenStops(src, i, e, level, gap);
    var a := i + 1;
    var b := a + |gap|;
    var c := b + |ExprText(e, 1, gap)|;
    EndsExpr(src, b, c, e);
    SkipGap(src, a, gap);
    SkipReads(src, a, b);
    SkipTwice(src, c);
    TextChar(src, i, "(", 0);
    SkipNothing(src, i);
    TextChar(src, c + |gap|, ")", 0);
    ReadsFactor(src, i, c + |gap|, e);
  }

  lemma ReadsFactor(src: string, i: nat, close: nat, e: Expr)
    requires i < |src| && At(src, i) == '(' && SkipInline(src, i) == i
    requires ParseExpr(src, i + 1) == (e, close) && SkipInline(src, close) == close
    requires close < |src| && At(src, close) == ')'
    ensures Reads(src, i, close + 1, e, 3)
  {
    hide ParseExpr, SkipInline;
  }

  lemma FiveParts(src: string, i: nat, a: string, b: string, c: string, d: string, e: string)
    requires TextAt(src, i, a + b + c + d + e)
    ensures TextAt(src, i, a) && TextAt(src, i + |a|, b) && TextAt(src, i + |a| + |b|, c)
    ensures TextAt(src, i + |a| + |b| + |c|, d) && TextAt(src, i + |a| + |b| + |c| + |d|, e)
    ensures i + |a| + |b| + |c| + |d| + |e| <= |src|
  {
    hide TextAt;
    TextParts(src, i, a + b + c + d, e);
    TextParts(src, i, a + b + c, d);
    TextParts(src, i, a + b, c);
    TextParts(src, i, a, b);
  }

  lemma ParenParts(src: string, i: nat, e: Expr, level: nat, gap: string)
    requires e.Bin? && Level(e.op) < level && Printable(e, level) && TextAt(src, i, ExprText(e, level, gap))
    ensures Printable(e, 1)
    ensures
      var inner := ExprText(e, 1, gap);
      && TextAt(src, i, "(") && TextAt(src, i + 1, gap) && TextAt(src, i + 1 + |gap|, inner)
      && TextAt(src, i + 1 + |gap| + |inner|, gap) && TextAt(src, i + 1 + |gap| + |inner| + |gap|, ")")
      && |ExprText(e, level, gap)| == 1 + |gap| + |inner| + |gap| + 1
      && i + |ExprText(e, level, gap)| <= |src|
  {
    assert ExprText(e, level, gap) == "(" + gap + ExprText(e, 1, gap) + gap + ")";
    FiveParts(src, i, "(", gap, ExprText(e, 1, gap), gap, ")");
  }

  lemma BinaryParts(src: string, i: nat, e: Expr, level: nat, gap: string)
    requires e.Bin? && Level(e.op) >= level && Printable(e, level) && TextAt(src, i, ExprText(e, level, gap))
    ensures var L := Level(e.op); L <= 2 && Printable(e.left, L) && Printable(e.right, L + 1)
    ensures
      var L := Level(e.op);
      var lt, ot, rt := ExprText(e.left, L, gap), OpText(e.op), ExprText(e.right, L + 1, gap);
      && TextAt(src, i, lt) && TextAt(src, i + |lt|, gap) && TextAt(src, i + |lt| + |gap|, ot)
      && TextAt(src, i + |lt| + |gap| + |ot|, gap) && TextAt(src, i + |lt| + |gap| + |ot| + |gap|, rt)
      && |ExprText(e, level, gap)| == |lt| + |gap| + |ot| + |gap| + |rt|
      && i + |ExprText(e, level, gap)| <= |src|
  {
    var L := Level(e.op);
    var lt, ot, rt := ExprText(e.left, L, gap), OpText(e.op), ExprText(e.right, L + 1, gap);
    assert ExprText(e, level, gap) == lt + gap + ot + gap + rt;
    hide ExprText, TextAt, OpText;
    FiveParts(src, i, lt, gap, ot, gap, rt);
  }

  lemma OpFirst(op: BinOp)
    ensures OpText(op) != []
    ensures
      var c := OpText(op)[0];
      && !IsIdentChar(c) && !IsInlineSpace(c) && c != '('
      && (Level(op) <= 1 ==> c != '*' && c != '/') && (Level(op) == 0 ==> c != '+' && c != '-')
  {
  }

  lemma EndsExpr(src: string, i: nat, j: nat, e: Expr)
    requires i <= |src| && j <= |src| && Reads(src, i, j, e, 1) && Stopped(src, j, 0)
    ensures ParseExpr(src, i) == (e, SkipInline(src, j))
  {
    hide ParseExpr;
  }

  // A gap before a closing parenthesis or an operator ends what comes before it.
  lemma GapStops(src: string, i: nat, gap: string, level: nat)
    requires TextAt(src, i, gap) && AllInline(gap)
    requires var c := At(src, i + |gap|);
      && !IsIdentChar(c) && !IsInlineSpace(c) && c != '('
      && (level <= 1 ==> c != '*' && c != '/') && (level == 0 ==> c != '+' && c != '-')
    ensures Stopped(src, i, level) && SkipInline(src, i) == i + |gap|
  {
    SkipGap(src, i, gap);
    SkipNothing(src, i + |gap|);
    if gap != [] {
      TextChar(src, i, gap, 0);
      assert gap[0] in gap;
    }
  }

  // Where the left operand and the whole operation end.
  lemma BinaryStops(src: string, i: nat, e: Expr, level: nat, gap: string)
    requires e.Bin? && Level(e.op) >= level && Printable(e, level) && AllInline(gap)
    requires TextAt(src, i, ExprText(e, level, gap)) && Stopped(src, i + |ExprText(e, level, gap)|, level)
    ensures var L := Level(e.op); L <= 2 && Printable(e.left, L) && Printable(e.right, L + 1)
    ensures
      var L := Level(e.op);
      var jl := i + |ExprText(e.left, L, gap)|;
      var j := i + |ExprText(e, level, gap)|;
      Stopped(src, jl, L) && SkipInline(src, jl) == jl + |gap| && Stopped(src, j, L) && Stopped(src, j, L + 1)
  {
    hide Reads, ParseFactor, ParseTerm, ParseExpr, ParseCompare, TermRest, ExprRest, CompareRest, AllInline,
      SkipInline, Stopped, ExprText, Printable, TextAt, OpText;
    BinaryParts(src, i, e, level, gap);
    var L := Level(e.op);
    var jl := i + |ExprText(e.left, L, gap)|;
    OpFirst(e.op);
    TextChar(src, jl + |gap|, OpText(e.op), 0);
    GapStops(src, jl, gap, L);
    WeakerStop(src, i + |ExprText(e, level, gap)|, level, L);
    WeakerStop(src, i + |ExprText(e, level, gap)|, L, L + 1);
  }

  lemma ReadsBinary(src: string, i: nat, e: Expr, level: nat, gap: string)
    requires e.Bin? && Level(e.op) >= level && Printable(e, level) && AllInline(gap)
    requires TextAt(src, i, ExprText(e, level, gap)) && Stopped(src, i + |ExprText(e, level, gap)|, level)
    requires i + |ExprText(e, level, gap)| <= |src|
    requires
      var L := Level(e.op);
      && L <= 2 && Printable(e.left, L) && Printable(e.right, L + 1)
      && var jl := i + |ExprText(e.left, L, gap)|;
         var r1 := jl + |gap| + |OpText(e.op)| + |gap|;
         && jl <= |src| && r1 <= |src|
         && Reads(src, i, jl, e.left, L) && Reads(src, r1, i + |ExprText(e, level, gap)|, e.right, L + 1)
    ensures Reads(src, i, i + |ExprText(e, level, gap)|, e, Level(e.op))
  {
    hide Reads, ParseFactor, ParseTerm, ParseExpr, ParseCompare, TermRest, ExprRest, CompareRest, AllInline,
      SkipInline, Stopped, ExprText, Printable, TextAt, OpText;
    BinaryParts(src, i, e, level, gap);
    BinaryStops(src, i, e, level, gap);
    var L := Level(e.op);
    var jl := i + |ExprText(e.left, L, gap)|;
    var k := jl + |gap|;
    var r0 := k + |OpText(e.op)|;
    var r1 := r0 + |gap|;
    var j := i + |ExprText(e, level, gap)|;
    FirstChar(e.right, L + 1, gap);
    TextChar(src, r1, ExprText(e.right, L + 1, gap), 0);
    GapFirst(src, r0, gap);
    SkipGap(src, r0, gap);
    ReadsFrom(src, r0, r1, j, e.right, L + 1);
    ReadsOperation(src, i, jl, k, r0, j, e.op, e.left, e.right);
  }

  lemma GapFirst(src: string, i: nat, gap: string)
    requires TextAt(src, i, gap) && AllInline(gap) && At(src, i + |gap|) != '='
    ensures At(src, i) != '='
  {
    if gap != [] {
      TextChar(src, i, gap, 0);
      assert gap[0] in gap;
    }
  }

  lemma ReadsFrom(src: string, i: nat, i': nat, j: nat, e: Expr, level: nat)
    requires i <= |src| && i' <= |src| && j <= |src|
    requires SkipInline(src, i) == SkipInline(src, i') && Reads(src, i', j, e, level)
    ensures Reads(src, i, j, e, level)
  {
    SkipReads(src, i, i');
  }

  // A whole condition or right-hand side.
  lemma ReadsCondition(src: string, i: nat, e: Expr, gap: string)
    requires Printable(e, 0) && AllInline(gap) && TextAt(src, i, ExprText(e, 0, gap))
    requires var j := i + |ExprText(e, 0, gap)|; Stopped(src, j, 0) && CompareOp(src, SkipInline(src, j)).None?
    ensures ParseCompare(src, i) == (e, SkipInline(src, i + |ExprText(e, 0, gap)|))
  {
    hide ParseCompare, ExprText, Printable;
    ReadsPrinted(src, i, e, 0, gap);
  }

  // ----- statements -----

  const KEYWORDS: seq<string> := ["if", "while", "print", "break", "continue", "int", "read", "else"]

  // How an assignment is written: bare, as a declaration, or, when it stores 0, as a declaration without a value.
  datatype Form = Bare | Declared | Brief

  // How a program is written: the inline space around operators and equals signs, and the form of each assignment.
  datatype Style = Style(gap: string, form: (string, Expr) -> Form)

  const PLAIN: Style := Style("", (x, e) => Bare)

  predicate PrintableLine(e: Expr, gap: string) {
    Printable(e, 0) && '\n' !in ExprText(e, 0, gap) && '\0' !in ExprText(e, 0, gap)
  }

  // What can be written as a statement inside `loops` loops. The condition of an if is cut at its
  // first closing parenthesis, so it must contain none.
  predicate PrintableStmt(s: Stmt, loops: nat, style: Style)
    decreases s
  {
    match s
    case Print(e) => PrintableLine(e, style.gap)
    case Assign(x, e) => IsName(x) && PrintableLine(e, style.gap) && PrintableForm(x, e, style.form(x, e))
    case Read(x) => IsName(x)
    case Break => loops > 0
    case Continue => loops > 0
    case If(c, b) => PrintableLine(c, style.gap) && ')' !in ExprText(c, 0, style.gap) && PrintableBlock(b, loops, style)
    case IfElse(c, b, f) =>
      && PrintableLine(c, style.gap) && ')' !in ExprText(c, 0, style.gap)
      && PrintableBlock(b, loops, style) && PrintableBlock(f, loops, style)
    case While(c, b) => PrintableLine(c, style.gap) && loops < MAX_LOOP_DEPTH && PrintableBlock(b, loops + 1, style)
    case _ => false
  }

  // Only a declaration can name a keyword, and only 0 is stored by one without a value.
  predicate PrintableForm(x: string, e: Expr, form: Form) {
    (form == Bare ==> x !in KEYWORDS) && (form == Brief ==> e == Num(0))
  }

  // A block is a chain of statements that starts from nothing.
  predicate PrintableBlock(b: Stmt, loops: nat, style: Style)
    decreases b
  {
    b == Skip || (b.Seq? && PrintableBlock(b.first, loops, style) && PrintableStmt(b.second, loops, style))
  }

  function FirstWord(s: Stmt, style: Style): string {
    match s
    case Print(_) => "print"
    case Assign(x, e) => if style.form(x, e) == Bare then x else "int"
    case Read(_) => "read"
    case Break => "break"
    case Continue => "continue"
    case While(_, _) => "while"
    case _ => "if"
  }

  // What follows `if` or `while`: a condition, a block, and what comes after the block.
  function Compound(t: string, bt: string, tail: string): (r: string)
    ensures |r| == 5 + |t| + |bt| + |tail|
  {
    " (" + t + ") {" + bt + tail
  }

  function RightText(e: Expr, gap: string): string
    requires Printable(e, 0)
  {
    gap + "=" + gap + ExprText(e, 0, gap) + "\n"
  }

  // What follows the name in a bare assignment, and `int` in a declaration.
  function AssignText(x: string, e: Expr, form: Form, gap: string): string
    requires Printable(e, 0)
  {
    match form
    case Bare => RightText(e, gap)
    case Declared => " " + x + RightText(e, gap)
    case Brief => " " + x + "\n"
  }

  // What follows the first word of a statement.
  function Rest(s: Stmt, loops: nat, style: Style): string
    requires PrintableStmt(s, loops, style)
    decreases s, 0
  {
    match s
    case Print(e) => " " + ExprText(e, 0, style.gap) + "\n"
    case Assign(x, e) => AssignText(x, e, style.form(x, e), style.gap)
    case Read(x) => " " + x + "\n"
    case Break => "\n"
    case Continue => "\n"
    case If(c, b) => Compound(ExprText(c, 0, style.gap), BlockText(b, loops, style), "}\n")
    case IfElse(c, b, f) =>
      Compound(ExprText(c, 0, style.gap), BlockText(b, loops, style), "} else {") + BlockText(f, loops, style) + "}\n"
    case While(c, b) => Compound(ExprText(c, 0, style.gap), BlockText(b, loops + 1, style), "}\n")
  }

  function StmtText(s: Stmt, loops: nat, style: Style): string
    requires PrintableStmt(s, loops, style)
    decreases s, 1
  {
    FirstWord(s, style) + Rest(s, loops, style)
  }

  function BlockText(b: Stmt, loops: nat, style: Style): string
    requires PrintableBlock(b, loops, style)
    decreases b, 2
  {
    if b == Skip then "" else BlockText(b.first, loops, style) + StmtText(b.second, loops, style)
  }

  // A word at i, followed by something else than a name: exactly the keyword it is matches there.
  lemma WordAt(src: string, i: nat, x: string)
    requires TextAt(src, i, x) && (forall c :: c in x ==> IsIdentChar(c)) && !IsIdentChar(At(src, i + |x|))
    ensures i <= |src| && IdentEnd(src, i) == i + |x|
    ensures forall k :: k in KEYWORDS ==> (MatchKeyword(src, i, k) <==> k == x)
  {
    IdentOfName(src, i, x);
    forall k | k in KEYWORDS ensures MatchKeyword(src, i, k) <==> k == x {
      KeywordChars(k);
      OneWord(src, i, x, k);
    }
  }

  lemma KeywordChars(k: string)
    requires k in KEYWORDS
    ensures forall c :: c in k ==> IsIdentChar(c)
  {
  }

  lemma OneWord(src: string, i: nat, x: string, k: string)
    requires TextAt(src, i, x) && (forall c :: c in x ==> IsIdentChar(c)) && !IsIdentChar(At(src, i + |x|))
    requires forall c :: c in k ==> IsIdentChar(c)
    ensures i <= |src| && (MatchKeyword(src, i, k) <==> k == x)
  {
    if MatchKeyword(src, i, k) {
      assert k == src[i..][..|k|] == src[i..i + |k|];
    }
  }

  // What a statement may be followed by: another statement, a closing brace, or the end.
  predicate NextOk(src: string, i: nat) {
    i <= |src| && !IsSpace(At(src, i)) && !MatchKeyword(src, i, "else")
  }

  lemma {:induction false} FindIn(src: string, i: nat, t: string, c: char)
    requires TextAt(src, i, t) && c !in t && '\0' !in t && At(src, i + |t|) == c
    ensures i <= |src| && Find(src, i, c) == i + |t|
    decreases |t|
  {
    if t != [] {
      TextChar(src, i, t, 0);
      assert t[0] in t;
      assert t == t[..1] + t[1..];
      TextParts(src, i, t[..1], t[1..]);
      FindIn(src, i + 1, t[1..], c);
    }
  }

  // The first word of a statement stands at its start, and it is not else.
  lemma FirstWordAt(src: string, i: nat, s: Stmt, loops: nat, style: Style)
    requires PrintableStmt(s, loops, style) && AllInline(style.gap) && TextAt(src, i, StmtText(s, loops, style))
    ensures i <= |src| && TextAt(src, i, FirstWord(s, style))
    ensures TextAt(src, i + |FirstWord(s, style)|, Rest(s, loops, style))
    ensures IsIdentStart(At(src, i)) && NextOk(src, i) && IdentEnd(src, i) == i + |FirstWord(s, style)|
    ensures forall k :: k in KEYWORDS ==> (MatchKeyword(src, i, k) <==> k == FirstWord(s, style))
    ensures i + |StmtText(s, loops, style)| <= |src|
  {
    hide ExprText, BlockText, TextAt, MatchKeyword, PrintableBlock, PrintableLine;
    var x := FirstWord(s, style);
    TextParts(src, i, x, Rest(s, loops, style));
    RestFirst(s, loops, style);
    TextChar(src, i + |x|, Rest(s, loops, style), 0);
    FirstWordIsName(s, loops, style);
    TextChar(src, i, x, 0);
    assert x[0] in x;
    WordAt(src, i, x);
    assert "else" in KEYWORDS by { assert KEYWORDS[7] == "else"; }
  }

  lemma RestFirst(s: Stmt, loops: nat, style: Style)
    requires PrintableStmt(s, loops, style) && AllInline(style.gap)
    ensures Rest(s, loops, style) != [] && !IsIdentChar(Rest(s, loops, style)[0])
  {
    hide ExprText, BlockText, PrintableBlock, PrintableLine;
    if s.Assign? { RightFirst(s.e, style.gap); }
  }

  lemma RightFirst(e: Expr, gap: string)
    requires PrintableLine(e, gap) && AllInline(gap)
    ensures RightText(e, gap) != [] && !IsIdentChar(RightText(e, gap)[0])
  {
    hide ExprText, Printable;
    if gap != [] { assert gap[0] in gap; }
  }

  lemma FirstWordIsName(s: Stmt, loops: nat, style: Style)
    requires PrintableStmt(s, loops, style)
    ensures var x := FirstWord(s, style); IsName(x) && x != "else"
  {
    hide ExprText, BlockText, PrintableBlock, PrintableLine;
    assert KEYWORDS[7] == "else";
  }

  // ----- reading statements back -----

  ghost predicate ReadsStmt(src: string, i: nat, s: Stmt, loops: nat, end: nat)
    requires i <= |src|
  {
    var (t, j) := ParseStmt(src, i, loops);
    t == s && SkipSpace(src, j) == end
  }

  lemma AtLineEnd(src: string, end: nat)
    requires 0 < end && NextOk(src, end) && At(src, end - 1) == '\n'
    ensures SkipSpace(src, end - 1) == end && SkipSpace(src, end) == end
  {
  }

  // A condition or right-hand side followed by a newline or a closing parenthesis.
  lemma ReadsLine(src: string, i: nat, e: Expr, gap: string)
    requires PrintableLine(e, gap) && AllInline(gap) && TextAt(src, i, ExprText(e, 0, gap))
    requires var c := At(src, i + |ExprText(e, 0, gap)|); c == '\n' || c == ')'
    ensures i <= |src| && ParseCompare(src, i) == (e, i + |ExprText(e, 0, gap)|)
    ensures SkipInline(src, i) == i
  {
    hide ExprText, ParseCompare, Printable;
    TextInside(src, i, ExprText(e, 0, gap));
    SkipNothing(src, i + |ExprText(e, 0, gap)|);
    FirstChar(e, 0, gap);
    TextChar(src, i, ExprText(e, 0, gap), 0);
    SkipNothing(src, i);
    ReadsCondition(src, i, e, gap);
  }

  lemma KeywordList()
    ensures "if" in KEYWORDS && "while" in KEYWORDS && "print" in KEYWORDS && "break" in KEYWORDS
    ensures "continue" in KEYWORDS && "int" in KEYWORDS && "read" in KEYWORDS && "else" in KEYWORDS
  {
    var k := KEYWORDS;
    assert k[0] in k && k[1] in k && k[2] in k && k[3] in k && k[4] in k && k[5] in k && k[6] in k && k[7] in k;
  }

  lemma ReadsPrint(src: string, k: nat, e: Expr, gap: string)
    requires PrintableLine(e, gap) && AllInline(gap) && TextAt(src, k, " " + ExprText(e, 0, gap) + "\n")
    ensures k <= |src| && ParsePrint(src, k) == (Print(e), k + 1 + |ExprText(e, 0, gap)|)
    ensures At(src, k + 1 + |ExprText(e, 0, gap)|) == '\n'
  {
    hide ExprText, Printable, ParseCompare, TextAt, Find, AllInline;
    var t := ExprText(e, 0, gap);
    TextParts(src, k, " " + t, "\n");
    TextParts(src, k, " ", t);
    TextChar(src, k, " ", 0);
    TextChar(src, k + 1 + |t|, "\n", 0);
    ReadsLine(src, k + 1, e, gap);
    FindIn(src, k + 1, t, '\n');
  }

  // From the equals sign, or the space before it, to the newline.
  lemma ReadsRight(src: string, k: nat, x: string, e: Expr, gap: string)
    requires PrintableLine(e, gap) && AllInline(gap) && TextAt(src, k, RightText(e, gap))
    ensures
      var j := k + |gap|;
      var end := k + |RightText(e, gap)| - 1;
      && j < |src| && SkipInline(src, k) == j && At(src, j) == '=' && ParseRight(src, x, j + 1) == (Assign(x, e), end)
      && At(src, end) == '\n'
  {
    hide ExprText, Printable, ParseCompare, TextAt, Find, AllInline, SkipInline, RightText;
    RightParts(src, k, e, gap);
    var t := ExprText(e, 0, gap);
    var j := k + |gap|;
    SkipGap(src, k, gap);
    SkipNothing(src, j);
    SkipGap(src, j + 1, gap);
    ReadsLine(src, j + 1 + |gap|, e, gap);
    FindIn(src, j + 1, gap + t, '\n');
  }

  lemma RightParts(src: string, k: nat, e: Expr, gap: string)
    requires PrintableLine(e, gap) && AllInline(gap) && TextAt(src, k, RightText(e, gap))
    ensures
      var t := ExprText(e, 0, gap);
      var j := k + |gap|;
      && |RightText(e, gap)| == 2 + 2 * |gap| + |t| && TextAt(src, k, gap) && At(src, j) == '='
      && TextAt(src, j + 1, gap) && TextAt(src, j + 1 + |gap|, t) && TextAt(src, j + 1, gap + t)
      && At(src, j + 1 + |gap| + |t|) == '\n' && '\n' !in gap + t && '\0' !in gap + t && j < |src|
  {
    hide ExprText, Printable, TextAt, AllInline;
    var t := ExprText(e, 0, gap);
    var j := k + |gap|;
    var right := gap + t + "\n";
    assert RightText(e, gap) == gap + "=" + right;
    ThreeTexts(src, k, gap, "=", right, |gap|);
    ThreeTexts(src, j + 1, gap, t, "\n", |gap|);
    TextParts(src, j + 1, gap + t, "\n");
    TextParts(src, k, gap, "=");
    TextChar(src, j, "=", 0);
    TextChar(src, j + 1 + |gap + t|, "\n", 0);
    GapLine(gap);
  }

  lemma GapLine(gap: string)
    requires AllInline(gap)
    ensures '\n' !in gap && '\0' !in gap
  {
  }

  lemma ReadsAssign(src: string, i: nat, x: string, e: Expr, gap: string)
    requires PrintableLine(e, gap) && AllInline(gap) && IsName(x) && TextAt(src, i, x)
    requires TextAt(src, i + |x|, RightText(e, gap))
    ensures i <= |src| && IsIdentStart(At(src, i))
    ensures ParseAssign(src, i) == (Assign(x, e), i + |x| + |RightText(e, gap)| - 1)
    ensures At(src, i + |x| + |RightText(e, gap)| - 1) == '\n'
  {
    hide ExprText, Printable, ParseRight, SkipInline, IdentEnd, AllInline;
    NameThenRight(src, i, x, e, gap);
    ReadsRight(src, i + |x|, x, e, gap);
  }

  lemma NameThenRight(src: string, i: nat, x: string, e: Expr, gap: string)
    requires PrintableLine(e, gap) && AllInline(gap) && IsName(x) && TextAt(src, i, x)
    requires TextAt(src, i + |x|, RightText(e, gap))
    ensures i + |x| <= |src| && IsIdentStart(At(src, i)) && IdentEnd(src, i) == i + |x| && Ident(src, i) == x
  {
    hide ExprText, Printable, SkipInline, IdentEnd, AllInline, RightText;
    RightFirst(e, gap);
    TextChar(src, i, x, 0);
    TextChar(src, i + |x|, RightText(e, gap), 0);
    IdentOfName(src, i, x);
  }

  // A declaration, from after `int`, is read as the assignment it stands for.
  lemma ReadsDeclared(src: string, k: nat, x: string, e: Expr, gap: string)
    requires PrintableLine(e, gap) && AllInline(gap) && IsName(x)
    requires TextAt(src, k, " " + x + RightText(e, gap))
    ensures k <= |src| && ParseInt(src, k) == (Assign(x, e), k + 1 + |x| + |RightText(e, gap)| - 1)
    ensures At(src, k + 1 + |x| + |RightText(e, gap)| - 1) == '\n'
  {
    hide ExprText, Printable, ParseRight, IdentEnd, AllInline, RightText, Ident, TextAt, SkipInline, IsName;
    ThreeTexts(src, k, " ", x, RightText(e, gap), 1);
    SpaceThenName(src, k, x);
    NameThenRight(src, k + 1, x, e, gap);
    ReadsRight(src, k + 1 + |x|, x, e, gap);
  }

  lemma SpaceThenName(src: string, k: nat, x: string)
    requires IsName(x) && TextAt(src, k, " ") && TextAt(src, k + 1, x)
    ensures k + 1 < |src| && SkipInline(src, k) == k + 1
  {
    TextChar(src, k, " ", 0);
    TextChar(src, k + 1, x, 0);
    SkipNothing(src, k + 1);
  }

  // One without a value stores 0.
  lemma ReadsBrief(src: string, k: nat, x: string)
    requires IsName(x) && TextAt(src, k, " " + x + "\n")
    ensures k <= |src| && ParseInt(src, k) == (Assign(x, Num(0)), k + 1 + |x|) && At(src, k + 1 + |x|) == '\n'
  {
    hide IsName, IdentEnd, Ident, TextAt, SkipInline, LineEnd;
    ThreeTexts(src, k, " ", x, "\n", 1);
    SpaceThenName(src, k, x);
    NameThenLine(src, k + 1, x);
  }

  lemma NameThenLine(src: string, i: nat, x: string)
    requires IsName(x) && TextAt(src, i, x) && TextAt(src, i + |x|, "\n")
    ensures i + |x| < |src| && IdentEnd(src, i) == i + |x| && Ident(src, i) == x && IsIdentStart(At(src, i))
    ensures At(src, i + |x|) == '\n' && SkipInline(src, i + |x|) == i + |x| && LineEnd(src, i + |x|) == i + |x|
  {
    TextChar(src, i, x, 0);
    TextChar(src, i + |x|, "\n", 0);
    SkipNothing(src, i + |x|);
    IdentOfName(src, i, x);
  }

  lemma ReadsRead(src: string, k: nat, x: string)
    requires IsName(x) && TextAt(src, k, " " + x + "\n")
    ensures k <= |src| && ParseRead(src, k) == (Read(x), k + 1 + |x|) && At(src, k + 1 + |x|) == '\n'
  {
    TextParts(src, k, " " + x, "\n");
    TextParts(src, k, " ", x);
    TextChar(src, k, " ", 0);
    TextChar(src, k + 1, x, 0);
    TextChar(src, k + 1 + |x|, "\n", 0);
    SkipNothing(src, k + 1);
    IdentOfName(src, k + 1, x);
  }

  lemma ReadsWord(src: string, i: nat, x: string)
    requires IsName(x) && TextAt(src, i, x + "\n")
    ensures i <= |src| && LineEnd(src, i) == i + |x| && At(src, i + |x|) == '\n'
  {
    TextParts(src, i, x, "\n");
    TextChar(src, i + |x|, "\n", 0);
    FindIn(src, i, x, '\n');
  }

  // The decision the compiler takes at a statement's first word x.
  lemma Decides(src: string, i: nat, x: string, loops: nat)
    requires i + |x| <= |src| && IsIdentStart(At(src, i))
    requires forall k :: k in KEYWORDS ==> (MatchKeyword(src, i, k) <==> k == x)
    ensures
      var r := ParseStmt(src, i, loops);
      && (x == "if" ==> r == ParseIf(src, i + 2, loops))
      && (x == "while" ==> r == ParseWhile(src, i + 5, loops))
      && (x != "if" && x != "while" ==> r == ParseSimple(src, i, loops))
  {
    hide MatchKeyword, ParseSimple, ParseIf, ParseWhile;
    KeywordList();
    assert SkipSpace(src, i) == i;
  }

  lemma DecidesSimple(src: string, i: nat, x: string, loops: nat)
    requires i + |x| <= |src| && IsIdentStart(At(src, i))
    requires forall k :: k in KEYWORDS ==> (MatchKeyword(src, i, k) <==> k == x)
    ensures
      var r := ParseSimple(src, i, loops);
      && (x == "print" ==> r == ParsePrint(src, i + 5))
      && (x == "break" && loops > 0 ==> r == (Break, LineEnd(src, i)))
      && (x == "continue" && loops > 0 ==> r == (Continue, LineEnd(src, i)))
      && (x == "int" ==> r == ParseInt(src, i + 3))
      && (x == "read" ==> r == ParseRead(src, i + 4))
      && (x !in KEYWORDS ==> r == ParseAssign(src, i))
  {
    hide MatchKeyword, ParsePrint, ParseInt, ParseRead, ParseAssign;
    KeywordList();
  }

  lemma ReadsSimple(src: string, i: nat, s: Stmt, loops: nat, style: Style)
    requires PrintableStmt(s, loops, style) && AllInline(style.gap) && TextAt(src, i, StmtText(s, loops, style))
    requires !s.If? && !s.IfElse? && !s.While? && NextOk(src, i + |StmtText(s, loops, style)|)
    ensures i <= |src| && ReadsStmt(src, i, s, loops, i + |StmtText(s, loops, style)|)
  {
    hide ExprText, MatchKeyword, PrintableStmt, TextAt, ParseStmt, ParseSimple, AllInline, NextOk, SkipSpace,
      StmtText, Rest;
    FirstWordAt(src, i, s, loops, style);
    Decides(src, i, FirstWord(s, style), loops);
    FirstWordIsName(s, loops, style);
    SimpleFirstWord(s, loops, style);
    SimpleRead(src, i, s, loops, style);
    AtLineEnd(src, i + |StmtText(s, loops, style)|);
  }

  lemma SimpleFirstWord(s: Stmt, loops: nat, style: Style)
    requires PrintableStmt(s, loops, style) && !s.If? && !s.IfElse? && !s.While?
    ensures FirstWord(s, style) != "if" && FirstWord(s, style) != "while"
  {
    hide PrintableLine, PrintableBlock;
    KeywordList();
  }

  lemma SimpleDecided(src: string, i: nat, s: Stmt, loops: nat, style: Style)
    requires PrintableStmt(s, loops, style) && !s.If? && !s.IfElse? && !s.While?
    requires IsIdentStart(At(src, i)) && i + |FirstWord(s, style)| <= |src|
    requires forall k :: k in KEYWORDS ==> (MatchKeyword(src, i, k) <==> k == FirstWord(s, style))
    ensures
      var at := i + |FirstWord(s, style)|;
      ParseSimple(src, i, loops)
        == match s
           case Print(_) => ParsePrint(src, at)
           case Read(_) => ParseRead(src, at)
           case Assign(x, e) => if style.form(x, e) == Bare then ParseAssign(src, i) else ParseInt(src, at)
           case _ => (s, LineEnd(src, i))
  {
    hide PrintableLine, MatchKeyword, ParseSimple, ParsePrint, ParseAssign, ParseInt, ParseRead, LineEnd;
    DecidesSimple(src, i, FirstWord(s, style), loops);
    KeywordList();
  }

  // A simple statement is read up to its newline.
  lemma SimpleRead(src: string, i: nat, s: Stmt, loops: nat, style: Style)
    requires PrintableStmt(s, loops, style) && AllInline(style.gap) && !s.If? && !s.IfElse? && !s.While?
    requires TextAt(src, i, FirstWord(s, style)) && TextAt(src, i + |FirstWord(s, style)|, Rest(s, loops, style))
    requires TextAt(src, i, StmtText(s, loops, style)) && i + |StmtText(s, loops, style)| <= |src|
    requires IsIdentStart(At(src, i))
    requires forall k :: k in KEYWORDS ==> (MatchKeyword(src, i, k) <==> k == FirstWord(s, style))
    ensures
      var end := i + |StmtText(s, loops, style)|;
      ParseSimple(src, i, loops) == (s, end - 1) && end > i && At(src, end - 1) == '\n'
  {
    hide ExprText, MatchKeyword, PrintableLine, IsName, TextAt, ParseSimple, ParsePrint, ParseAssign, ParseInt,
      ParseRead, AllInline, LineEnd, RightText;
    var x := FirstWord(s, style);
    SimpleDecided(src, i, s, loops, style);
    FirstWordIsName(s, loops, style);
    hide FirstWord;
    match s
    case Print(e) => ReadsPrint(src, i + |x|, e, style.gap);
    case Assign(y, e) =>
      match style.form(y, e) {
        case Bare => ReadsAssign(src, i, y, e, style.gap);
        case Declared => ReadsDeclared(src, i + |x|, y, e, style.gap);
        case Brief => ReadsBrief(src, i + |x|, y);
      }
    case Read(y) => ReadsRead(src, i + |x|, y);
    case Break => ReadsWord(src, i, x);
    case Continue => ReadsWord(src, i, x);
  }

  // ----- conditionals and loops -----

  lemma HeadChars(src: string, k: nat, t: string)
    requires TextAt(src, k, " (" + t + ") {")
    ensures
      var j := k + 2 + |t|;
      && j + 3 <= |src| && TextAt(src, k + 2, t) && SkipInline(src, k) == k + 1 && At(src, k + 1) == '('
      && At(src, j) == ')' && SkipSpace(src, j + 1) == j + 2 && At(src, j + 2) == '{'
  {
    var j := k + 2 + |t|;
    TextParts(src, k, " (" + t, ") {");
    TextParts(src, k, " (", t);
    TextChar(src, k, " (", 0);
    TextChar(src, k, " (", 1);
    TextChar(src, j, ") {", 0);
    TextChar(src, j, ") {", 1);
    TextChar(src, j, ") {", 2);
  }

  // The condition of a compound statement, from after its first word to its opening brace.
  lemma ReadsHead(src: string, k: nat, c: Expr, gap: string)
    requires PrintableLine(c, gap) && AllInline(gap) && TextAt(src, k, " (" + ExprText(c, 0, gap) + ") {")
    ensures
      var j := k + 2 + |ExprText(c, 0, gap)|;
      && j + 3 <= |src| && SkipInline(src, k) == k + 1 && At(src, k + 1) == '('
      && ParseCompare(src, k + 2) == (c, j) && PastParen(src, j) == j + 1
      && (')' !in ExprText(c, 0, gap) ==> PastParen(src, k + 2) == j + 1)
      && SkipSpace(src, j + 1) == j + 2 && At(src, j + 2) == '{'
  {
    hide ExprText, Printable, ParseCompare, TextAt, SkipInline, SkipSpace, AllInline;
    var t := ExprText(c, 0, gap);
    HeadChars(src, k, t);
    ReadsLine(src, k + 2, c, gap);
    if ')' !in t { FindIn(src, k + 2, t, ')'); }
  }

  // A block that holds the statements of b, its closing brace at j.
  ghost predicate ReadsBlock(src: string, i: nat, b: Stmt, loops: nat, j: nat) {
    i <= |src| && ParseStmts(src, i, loops, Skip) == (b, j)
  }

  lemma ReadsBraces(src: string, i: nat, open: nat, b: Stmt, loops: nat, j: nat)
    requires i <= |src| && open < |src| && SkipSpace(src, i) == open && At(src, open) == '{'
    requires ReadsBlock(src, open + 1, b, loops, j) && At(src, j) == '}'
    ensures ParseBlock(src, i, loops) == (b, j + 1)
  {
    hide ParseStmts;
  }

  lemma CompoundParts(src: string, k: nat, t: string, bt: string, tail: string)
    requires TextAt(src, k, Compound(t, bt, tail))
    ensures TextAt(src, k, " (" + t + ") {")
    ensures TextAt(src, k + 5 + |t|, bt) && TextAt(src, k + 5 + |t| + |bt|, tail)
    ensures k + 5 + |t| + |bt| + |tail| <= |src|
  {
    hide TextAt;
    assert Compound(t, bt, tail) == " (" + t + ") {" + bt + tail;
    TextParts(src, k, " (" + t + ") {" + bt, tail);
    TextParts(src, k, " (" + t + ") {", bt);
  }

  lemma TwoChars(src: string, j: nat, t: string)
    requires TextAt(src, j, t) && |t| >= 2
    ensures At(src, j) == t[0] && At(src, j + 1) == t[1] && j + 2 <= |src|
  {
    TextChar(src, j, t, 0);
    TextChar(src, j, t, 1);
  }

  // An if, given its block; t and bt are the texts of its condition and its block.
  lemma ReadsIf(src: string, k: nat, c: Expr, b: Stmt, loops: nat, bt: string, gap: string)
    requires PrintableLine(c, gap) && AllInline(gap) && ')' !in ExprText(c, 0, gap)
    requires TextAt(src, k, Compound(ExprText(c, 0, gap), bt, "}\n"))
    requires NextOk(src, k + 7 + |ExprText(c, 0, gap)| + |bt|)
    requires var b0 := k + 5 + |ExprText(c, 0, gap)|; ReadsBlock(src, b0, b, loops, b0 + |bt|)
    ensures k <= |src| && ParseIf(src, k, loops) == (If(c, b), k + 7 + |ExprText(c, 0, gap)| + |bt|)
  {
    hide ExprText, Printable, ParseCompare, ParseBlock, PastParen, TextAt, ReadsBlock, SkipInline, SkipSpace,
      AllInline, MatchKeyword;
    var t := ExprText(c, 0, gap);
    CompoundParts(src, k, t, bt, "}\n");
    ReadsHead(src, k, c, gap);
    var j := k + 2 + |t|;
    var b1 := j + 3 + |bt|;
    TwoChars(src, b1, "}\n");
    ReadsBraces(src, j + 1, j + 2, b, loops, b1);
    ParseBlockSkips(src, j + 1, loops);
    AtLineEnd(src, b1 + 2);
  }

  lemma ParseBlockSkips(src: string, i: nat, loops: nat)
    requires i <= |src|
    ensures ParseBlock(src, i, loops).1 <= |src|
  {
  }

  lemma ReadsWhile(src: string, k: nat, c: Expr, b: Stmt, loops: nat, bt: string, gap: string)
    requires PrintableLine(c, gap) && AllInline(gap) && loops < MAX_LOOP_DEPTH
    requires TextAt(src, k, Compound(ExprText(c, 0, gap), bt, "}\n"))
    requires var b0 := k + 5 + |ExprText(c, 0, gap)|; ReadsBlock(src, b0, b, loops + 1, b0 + |bt|)
    ensures k <= |src| && ParseWhile(src, k, loops) == (While(c, b), k + 6 + |ExprText(c, 0, gap)| + |bt|)
    ensures At(src, k + 6 + |ExprText(c, 0, gap)| + |bt|) == '\n'
  {
    hide ExprText, Printable, ParseCompare, ParseBlock, PastParen, TextAt, ReadsBlock, SkipInline, SkipSpace,
      AllInline;
    var t := ExprText(c, 0, gap);
    CompoundParts(src, k, t, bt, "}\n");
    ReadsHead(src, k, c, gap);
    var j := k + 2 + |t|;
    var b1 := j + 3 + |bt|;
    TwoChars(src, b1, "}\n");
    ReadsBraces(src, j + 1, j + 2, b, loops + 1, b1);
  }

  lemma ReadsIfElse(src: string, k: nat, c: Expr, b: Stmt, f: Stmt, loops: nat, bt: string, ft: string, n: nat,
                    gap: string)
    requires PrintableLine(c, gap) && AllInline(gap) && ')' !in ExprText(c, 0, gap)
    requires n == 13 + |ExprText(c, 0, gap)| + |bt|
    requires TextAt(src, k, Compound(ExprText(c, 0, gap), bt, "} else {"))
    requires TextAt(src, k + n + |ft|, "}\n")
    requires var b0 := k + 5 + |ExprText(c, 0, gap)|; ReadsBlock(src, b0, b, loops, b0 + |bt|)
    requires ReadsBlock(src, k + n, f, loops, k + n + |ft|)
    ensures k <= |src| && ParseIf(src, k, loops) == (IfElse(c, b, f), k + n + |ft| + 1)
    ensures At(src, k + n + |ft| + 1) == '\n'
  {
    hide ExprText, Printable, ParseCompare, ParseBlock, PastParen, TextAt, ReadsBlock, SkipInline, SkipSpace,
      AllInline, MatchKeyword, Compound, ParseElse;
    var t := ExprText(c, 0, gap);
    CompoundParts(src, k, t, bt, "} else {");
    ReadsHead(src, k, c, gap);
    var j := k + 2 + |t|;
    var b1 := j + 3 + |bt|;
    ReadsElse(src, b1);
    ReadsBraces(src, j + 1, j + 2, b, loops, b1);
    ElseRead(src, b1 + 1, c, b, f, loops, k + n + |ft|);
  }

  lemma ElseRead(src: string, i: nat, c: Expr, b: Stmt, f: Stmt, loops: nat, end: nat)
    requires i <= |src| && SkipSpace(src, i) == i + 1 && MatchKeyword(src, i + 1, "else")
    requires i + 6 < |src| && SkipSpace(src, i + 5) == i + 6 && At(src, i + 6) == '{'
    requires ReadsBlock(src, i + 7, f, loops, end) && TextAt(src, end, "}\n")
    ensures ParseElse(src, i, loops, c, b) == (IfElse(c, b, f), end + 1) && At(src, end + 1) == '\n'
  {
    hide ParseBlock, MatchKeyword, ReadsBlock, SkipSpace, TextAt;
    TwoChars(src, end, "}\n");
    ReadsBraces(src, i + 5, i + 6, f, loops, end);
  }

  lemma ReadsElse(src: string, b1: nat)
    requires TextAt(src, b1, "} else {")
    ensures b1 + 8 <= |src| && At(src, b1) == '}' && SkipSpace(src, b1 + 1) == b1 + 2
    ensures MatchKeyword(src, b1 + 2, "else") && SkipSpace(src, b1 + 6) == b1 + 7 && At(src, b1 + 7) == '{'
  {
    var t := "} else {";
    assert t == "} " + "else" + " {";
    TextParts(src, b1, "} " + "else", " {");
    TextParts(src, b1, "} ", "else");
    TextChar(src, b1, t, 0);
    TextChar(src, b1, t, 1);
    TextChar(src, b1, t, 2);
    TextChar(src, b1, t, 6);
    TextChar(src, b1, t, 7);
    assert src[b1 + 2..][..4] == "else";
  }

  // ----- the round trip of statements, blocks and programs -----

  ghost predicate BlockAt(src: string, i: nat, b: Stmt, loops: nat, style: Style) {
    && PrintableBlock(b, loops, style) && TextAt(src, i, BlockText(b, loops, style))
    && NextOk(src, i + |BlockText(b, loops, style)|) && AtEnd(At(src, i + |BlockText(b, loops, style)|))
  }

  lemma ClosingBrace(src: string, j: nat, tail: string)
    requires TextAt(src, j, tail) && tail != [] && tail[0] == '}'
    ensures NextOk(src, j) && At(src, j) == '}'
  {
    TextChar(src, j, tail, 0);
  }

  // What is read where the text of a statement starts, and how reading it must end.
  lemma StmtRead(src: string, i: nat, s: Stmt, loops: nat, end: nat)
    requires i <= |src| && NextOk(src, end)
    requires
      var (t, j) := ParseStmt(src, i, loops);
      t == s && (j == end || (j + 1 == end && At(src, j) == '\n'))
    ensures ReadsStmt(src, i, s, loops, end)
  {
    hide ParseStmt, MatchKeyword;
    var (t, j) := ParseStmt(src, i, loops);
    if j + 1 == end { AtLineEnd(src, end); }
  }

  lemma {:induction false} ReadsPrintedStmt(src: string, i: nat, s: Stmt, loops: nat, style: Style)
    requires PrintableStmt(s, loops, style) && AllInline(style.gap) && TextAt(src, i, StmtText(s, loops, style))
    requires NextOk(src, i + |StmtText(s, loops, style)|)
    ensures i <= |src| && ReadsStmt(src, i, s, loops, i + |StmtText(s, loops, style)|)
    decreases s, 1
  {
    hide PrintableStmt, StmtText, TextAt, NextOk, AllInline, ReadsStmt;
    if s.If? { ReadsPrintedIf(src, i, s, loops, style); }
    else if s.IfElse? { ReadsPrintedIfElse(src, i, s, loops, style); }
    else if s.While? { ReadsPrintedWhile(src, i, s, loops, style); }
    else { ReadsSimple(src, i, s, loops, style); }
  }

  // The first block of a compound statement, from after its first word.
  lemma CompoundBlock(src: string, k: nat, t: string, b: Stmt, loops: nat, style: Style, tail: string)
    requires PrintableBlock(b, loops, style) && tail != [] && tail[0] == '}'
    requires TextAt(src, k, Compound(t, BlockText(b, loops, style), tail))
    ensures BlockAt(src, k + 5 + |t|, b, loops, style)
  {
    hide TextAt, NextOk, BlockText, PrintableBlock;
    CompoundParts(src, k, t, BlockText(b, loops, style), tail);
    ClosingBrace(src, k + 5 + |t| + |BlockText(b, loops, style)|, tail);
  }

  lemma LastBlock(src: string, k: nat, b: Stmt, loops: nat, style: Style)
    requires PrintableBlock(b, loops, style)
    requires TextAt(src, k, BlockText(b, loops, style)) && TextAt(src, k + |BlockText(b, loops, style)|, "}\n")
    ensures BlockAt(src, k, b, loops, style)
  {
    hide TextAt, NextOk, BlockText, PrintableBlock;
    ClosingBrace(src, k + |BlockText(b, loops, style)|, "}\n");
  }

  lemma DecidesCompound(src: string, i: nat, s: Stmt, loops: nat, style: Style)
    requires AllInline(style.gap)
    requires PrintableStmt(s, loops, style) && TextAt(src, i, StmtText(s, loops, style))
    requires (s.If? || s.IfElse? || s.While?)
    ensures i + |StmtText(s, loops, style)| <= |src| && TextAt(src, i + |FirstWord(s, style)|, Rest(s, loops, style))
    ensures |StmtText(s, loops, style)| == |FirstWord(s, style)| + |Rest(s, loops, style)|
    ensures i + |FirstWord(s, style)| <= |src|
    ensures ParseStmt(src, i, loops) == if s.While? then ParseWhile(src, i + 5, loops) else ParseIf(src, i + 2, loops)
  {
    hide PrintableStmt, Rest, TextAt, NextOk, MatchKeyword, ParseStmt, ParseIf, ParseWhile;
    FirstWordAt(src, i, s, loops, style);
    Decides(src, i, FirstWord(s, style), loops);
  }

  // Where the parts of a printed If lie.
  lemma IfLayout(src: string, i: nat, s: Stmt, loops: nat, style: Style)
    requires AllInline(style.gap)
    requires s.If? && PrintableStmt(s, loops, style) && TextAt(src, i, StmtText(s, loops, style))
    ensures PrintableLine(s.cond, style.gap) && PrintableBlock(s.thn, loops, style)
    ensures ')' !in ExprText(s.cond, 0, style.gap)
    ensures
      var t, bt := ExprText(s.cond, 0, style.gap), BlockText(s.thn, loops, style);
      && |StmtText(s, loops, style)| == 2 + 7 + |t| + |bt| && i + |StmtText(s, loops, style)| <= |src|
      && TextAt(src, i + 2, Compound(t, bt, "}\n"))
    ensures ParseStmt(src, i, loops) == ParseIf(src, i + 2, loops)
  {
    hide ExprText, BlockText, Printable, PrintableStmt, PrintableBlock, TextAt, NextOk, MatchKeyword, Rest,
      StmtText, ParseStmt, ParseIf, BlockAt, Compound;
    IfText(s, loops, style);
    DecidesCompound(src, i, s, loops, style);
    var t, bt := ExprText(s.cond, 0, style.gap), BlockText(s.thn, loops, style);
  }

  lemma IfText(s: Stmt, loops: nat, style: Style)
    requires s.If? && PrintableStmt(s, loops, style)
    ensures PrintableLine(s.cond, style.gap) && PrintableBlock(s.thn, loops, style)
    ensures ')' !in ExprText(s.cond, 0, style.gap)
    ensures FirstWord(s, style) == "if" && StmtText(s, loops, style) == "if" + Rest(s, loops, style)
    ensures
      var t, bt := ExprText(s.cond, 0, style.gap), BlockText(s.thn, loops, style);
      Rest(s, loops, style) == Compound(t, bt, "}\n") && |Rest(s, loops, style)| == 7 + |t| + |bt|
  {
    hide ExprText, BlockText, Printable, PrintableBlock;
  }

  lemma {:induction false} ReadsPrintedIf(src: string, i: nat, s: Stmt, loops: nat, style: Style)
    requires s.If? && PrintableStmt(s, loops, style) && AllInline(style.gap)
    requires TextAt(src, i, StmtText(s, loops, style))
    requires NextOk(src, i + |StmtText(s, loops, style)|)
    ensures i <= |src| && ReadsStmt(src, i, s, loops, i + |StmtText(s, loops, style)|)
    decreases s, 0
  {
    hide ExprText, BlockText, PrintableStmt, PrintableBlock, Printable, TextAt, NextOk, MatchKeyword, StmtText,
      Rest, AllInline, ParseStmt, ParseIf, ParseWhile, ReadsBlock, ReadsStmt, BlockAt;
    IfLayout(src, i, s, loops, style);
    CompoundBlock(src, i + 2, ExprText(s.cond, 0, style.gap), s.thn, loops, style, "}\n");
    ReadsPrintedBlock(src, i + 2 + 5 + |ExprText(s.cond, 0, style.gap)|, s.thn, loops, style);
    ReadsIf(src, i + 2, s.cond, s.thn, loops, BlockText(s.thn, loops, style), style.gap);
    StmtRead(src, i, s, loops, i + |StmtText(s, loops, style)|);
  }

  // Where the parts of a printed While lie.
  lemma WhileLayout(src: string, i: nat, s: Stmt, loops: nat, style: Style)
    requires AllInline(style.gap)
    requires s.While? && PrintableStmt(s, loops, style) && TextAt(src, i, StmtText(s, loops, style))
    ensures PrintableLine(s.cond, style.gap) && PrintableBlock(s.body, loops + 1, style) && loops < MAX_LOOP_DEPTH
    ensures
      var t, bt := ExprText(s.cond, 0, style.gap), BlockText(s.body, loops + 1, style);
      && |StmtText(s, loops, style)| == 5 + 7 + |t| + |bt| && i + |StmtText(s, loops, style)| <= |src|
      && TextAt(src, i + 5, Compound(t, bt, "}\n"))
    ensures ParseStmt(src, i, loops) == ParseWhile(src, i + 5, loops)
  {
    hide ExprText, BlockText, PrintableLine, PrintableStmt, PrintableBlock, TextAt, Rest, StmtText, ParseStmt,
      ParseWhile, Compound;
    WhileText(s, loops, style);
    DecidesCompound(src, i, s, loops, style);
  }

  lemma WhileText(s: Stmt, loops: nat, style: Style)
    requires s.While? && PrintableStmt(s, loops, style)
    ensures PrintableLine(s.cond, style.gap) && PrintableBlock(s.body, loops + 1, style) && loops < MAX_LOOP_DEPTH
    ensures FirstWord(s, style) == "while" && StmtText(s, loops, style) == "while" + Rest(s, loops, style)
    ensures
      var t, bt := ExprText(s.cond, 0, style.gap), BlockText(s.body, loops + 1, style);
      Rest(s, loops, style) == Compound(t, bt, "}\n") && |Rest(s, loops, style)| == 7 + |t| + |bt|
  {
    hide ExprText, BlockText, Printable, PrintableBlock;
  }

  lemma {:induction false} ReadsPrintedWhile(src: string, i: nat, s: Stmt, loops: nat, style: Style)
    requires s.While? && PrintableStmt(s, loops, style) && AllInline(style.gap)
    requires TextAt(src, i, StmtText(s, loops, style))
    requires NextOk(src, i + |StmtText(s, loops, style)|)
    ensures i <= |src| && ReadsStmt(src, i, s, loops, i + |StmtText(s, loops, style)|)
    decreases s, 0
  {
    hide ExprText, BlockText, PrintableStmt, PrintableBlock, Printable, TextAt, NextOk, MatchKeyword, StmtText,
      Rest, AllInline, ParseStmt, ParseIf, ParseWhile, ReadsBlock, ReadsStmt, BlockAt;
    WhileLayout(src, i, s, loops, style);
    CompoundBlock(src, i + 5, ExprText(s.cond, 0, style.gap), s.body, loops + 1, style, "}\n");
    ReadsPrintedBlock(src, i + 5 + 5 + |ExprText(s.cond, 0, style.gap)|, s.body, loops + 1, style);
    ReadsWhile(src, i + 5, s.cond, s.body, loops, BlockText(s.body, loops + 1, style), style.gap);
    StmtRead(src, i, s, loops, i + |StmtText(s, loops, style)|);
  }

  // Where the parts of a printed if with an else lie.
  lemma IfElseLayout(src: string, i: nat, s: Stmt, loops: nat, style: Style)
    requires AllInline(style.gap)
    requires s.IfElse? && PrintableStmt(s, loops, style) && TextAt(src, i, StmtText(s, loops, style))
    ensures PrintableLine(s.cond, style.gap) && PrintableBlock(s.thn, loops, style)
    ensures PrintableBlock(s.els, loops, style)
    ensures ')' !in ExprText(s.cond, 0, style.gap)
    ensures
      var t, bt, ft := ExprText(s.cond, 0, style.gap), BlockText(s.thn, loops, style), BlockText(s.els, loops, style);
      && |StmtText(s, loops, style)| == 17 + |t| + |bt| + |ft| && i + |StmtText(s, loops, style)| <= |src|
      && TextAt(src, i + 2, Compound(t, bt, "} else {"))
      && var n := 13 + |t| + |bt|; TextAt(src, i + 2 + n, ft) && TextAt(src, i + 2 + n + |ft|, "}\n")
    ensures ParseStmt(src, i, loops) == ParseIf(src, i + 2, loops)
  {
    hide ExprText, BlockText, Printable, PrintableStmt, PrintableBlock, TextAt, NextOk, MatchKeyword, Rest,
      StmtText, ParseStmt, ParseIf, BlockAt, Compound;
    IfElseText(s, loops, style);
    DecidesCompound(src, i, s, loops, style);
    IfElseTexts(src, i + 2, Rest(s, loops, style), ExprText(s.cond, 0, style.gap), BlockText(s.thn, loops, style),
                BlockText(s.els, loops, style));
  }

  lemma IfElseTexts(src: string, k: nat, rest: string, t: string, bt: string, ft: string)
    requires TextAt(src, k, rest) && rest == Compound(t, bt, "} else {") + ft + "}\n"
    ensures TextAt(src, k, Compound(t, bt, "} else {"))
    ensures var n := 13 + |t| + |bt|; TextAt(src, k + n, ft) && TextAt(src, k + n + |ft|, "}\n")
  {
    hide TextAt, Compound;
    ThreeTexts(src, k, Compound(t, bt, "} else {"), ft, "}\n", 13 + |t| + |bt|);
  }

  lemma IfElseText(s: Stmt, loops: nat, style: Style)
    requires s.IfElse? && PrintableStmt(s, loops, style)
    ensures PrintableLine(s.cond, style.gap) && PrintableBlock(s.thn, loops, style)
    ensures PrintableBlock(s.els, loops, style)
    ensures ')' !in ExprText(s.cond, 0, style.gap)
    ensures FirstWord(s, style) == "if" && StmtText(s, loops, style) == "if" + Rest(s, loops, style)
    ensures
      var t, bt, ft := ExprText(s.cond, 0, style.gap), BlockText(s.thn, loops, style), BlockText(s.els, loops, style);
      && Rest(s, loops, style) == Compound(t, bt, "} else {") + ft + "}\n"
      && |Rest(s, loops, style)| == 15 + |t| + |bt| + |ft|
  {
    hide ExprText, BlockText, Printable, PrintableBlock;
  }

  lemma {:induction false} ReadsPrintedIfElse(src: string, i: nat, s: Stmt, loops: nat, style: Style)
    requires s.IfElse? && PrintableStmt(s, loops, style) && AllInline(style.gap)
    requires TextAt(src, i, StmtText(s, loops, style))
    requires NextOk(src, i + |StmtText(s, loops, style)|)
    ensures i <= |src| && ReadsStmt(src, i, s, loops, i + |StmtText(s, loops, style)|)
    decreases s, 0
  {
    hide ExprText, BlockText, PrintableStmt, PrintableBlock, Printable, TextAt, NextOk, MatchKeyword, StmtText,
      Rest, AllInline, ParseStmt, ParseIf, ParseWhile, ReadsBlock, ReadsStmt, BlockAt;
    IfElseLayout(src, i, s, loops, style);
    var t, bt, ft := ExprText(s.cond, 0, style.gap), BlockText(s.thn, loops, style), BlockText(s.els, loops, style);
    var n := 13 + |t| + |bt|;
    CompoundBlock(src, i + 2, t, s.thn, loops, style, "} else {");
    LastBlock(src, i + 2 + n, s.els, loops, style);
    ReadsPrintedBlock(src, i + 2 + 5 + |t|, s.thn, loops, style);
    ReadsPrintedBlock(src, i + 2 + n, s.els, loops, style);
    ReadsIfElse(src, i + 2, s.cond, s.thn, s.els, loops, bt, ft, n, style.gap);
    StmtRead(src, i, s, loops, i + |StmtText(s, loops, style)|);
  }

  lemma {:induction false} ReadsPrintedBlock(src: string, i: nat, b: Stmt, loops: nat, style: Style)
    requires AllInline(style.gap) && BlockAt(src, i, b, loops, style)
    ensures ReadsBlock(src, i, b, loops, i + |BlockText(b, loops, style)|)
    decreases b, 3
  {
    hide BlockText, PrintableBlock, TextAt, AllInline, MatchKeyword;
    ReadsStatements(src, i, b, loops, style);
  }

  // After the statements of b, reading goes on behind them with b read.
  lemma {:induction false} ReadsStatements(src: string, i: nat, b: Stmt, loops: nat, style: Style)
    requires AllInline(style.gap) && PrintableBlock(b, loops, style) && TextAt(src, i, BlockText(b, loops, style))
    requires NextOk(src, i + |BlockText(b, loops, style)|)
    ensures i <= |src| && i + |BlockText(b, loops, style)| <= |src|
    ensures ParseStmts(src, i, loops, Skip) == ParseStmts(src, i + |BlockText(b, loops, style)|, loops, b)
    decreases b, 2
  {
    hide BlockText, StmtText, TextAt, NextOk, AllInline, PrintableStmt, PrintableBlock, MatchKeyword, ParseStmts,
      ReadsStmt;
    BlockLayout(src, i, b, loops, style);
    if b != Skip {
      var st := StmtText(b.second, loops, style);
      var mid := i + |BlockText(b.first, loops, style)|;
      FirstWordAt(src, mid, b.second, loops, style);
      ReadsStatements(src, i, b.first, loops, style);
      ReadsPrintedStmt(src, mid, b.second, loops, style);
      ReadsNext(src, mid, b.first, b.second, loops, mid + |st|);
    }
  }

  lemma BlockLayout(src: string, i: nat, b: Stmt, loops: nat, style: Style)
    requires PrintableBlock(b, loops, style) && TextAt(src, i, BlockText(b, loops, style))
    ensures i + |BlockText(b, loops, style)| <= |src|
    ensures b == Skip ==> BlockText(b, loops, style) == ""
    ensures b != Skip ==> b.Seq? && PrintableBlock(b.first, loops, style) && PrintableStmt(b.second, loops, style)
    ensures b != Skip ==> TextAt(src, i, BlockText(b.first, loops, style))
    ensures b != Skip ==> TextAt(src, i + |BlockText(b.first, loops, style)|, StmtText(b.second, loops, style))
    ensures b != Skip ==>
      |BlockText(b, loops, style)| == |BlockText(b.first, loops, style)| + |StmtText(b.second, loops, style)|
  {
    hide StmtText, PrintableStmt;
    if b != Skip { TextParts(src, i, BlockText(b.first, loops, style), StmtText(b.second, loops, style)); }
  }

  lemma ReadsNext(src: string, i: nat, acc: Stmt, s: Stmt, loops: nat, end: nat)
    requires i <= |src| && IsIdentStart(At(src, i)) && ReadsStmt(src, i, s, loops, end)
    ensures end <= |src| && ParseStmts(src, i, loops, acc) == ParseStmts(src, end, loops, Seq(acc, s))
  {
    hide ParseStmt;
  }

  // A printed program is read back as itself, and the compiler's top loop stops on it.
  lemma RoundTrip(prog: Stmt, style: Style)
    requires AllInline(style.gap) && PrintableBlock(prog, 0, style)
    ensures Parse(BlockText(prog, 0, style)) == prog && Stops(BlockText(prog, 0, style))
  {
    hide BlockText, PrintableBlock, AllInline, ParseStmts;
    var src := BlockText(prog, 0, style);
    assert src[0..|src|] == src;
    ReadsStatements(src, 0, prog, 0, style);
    StmtsLast(src, prog);
  }

  lemma StmtsLast(src: string, acc: Stmt)
    ensures ParseStmts(src, |src|, 0, acc) == (acc, |src|)
  {
  }

  lemma StmtsNext(src: string, i: nat, acc: Stmt)
    requires i <= |src| && !AtEnd(At(src, i))
    ensures
      var (s, j) := ParseStmt(src, i, 0);
      ParseStmts(src, i, 0, acc) == ParseStmts(src, SkipSpace(src, j), 0, Seq(acc, s))
  {
    hide ParseStmt, SkipSpace;
  }
}
