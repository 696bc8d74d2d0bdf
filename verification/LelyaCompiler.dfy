// The one-pass Lelya compiler: it reads text, interns names and strings, emits into the caller's
// code buffer and patches jumps behind itself. Every method is proved to produce the code that
// LelyaCode assigns to the program that LelyaGrammar reads.
module LelyaCompiler {
  import opened LelyaSyntax
  import opened LelyaGrammar
  import opened LelyaCode

  // ----- scanning -----

  method ScanInline(src: string, i: nat) returns (r: nat)
    requires i <= |src|
    ensures r == SkipInline(src, i)
  {
    r := i;
    while IsInlineSpace(At(src, r))
      invariant r <= |src| && SkipInline(src, r) == SkipInline(src, i)
      decreases |src| - r
    {
      r := r + 1;
    }
  }

  method ScanSpace(src: string, i: nat) returns (r: nat)
    requires i <= |src|
    ensures r == SkipSpace(src, i)
  {
    r := i;
    while IsSpace(At(src, r))
      invariant r <= |src| && SkipSpace(src, r) == SkipSpace(src, i)
      decreases |src| - r
    {
      r := r + 1;
    }
  }

  method ScanTo(src: string, i: nat, c: char) returns (r: nat)
    requires i <= |src|
    ensures r == Find(src, i, c)
  {
    r := i;
    while At(src, r) != '\0' && At(src, r) != c
      invariant r <= |src| && Find(src, r, c) == Find(src, i, c)
      decreases |src| - r
    {
      r := r + 1;
    }
  }

  method ScanPastParen(src: string, i: nat) returns (r: nat)
    requires i <= |src|
    ensures r == PastParen(src, i)
  {
    r := ScanTo(src, i, ')');
    if At(src, r) == ')' { r := r + 1; }
  }

  method IsKeyword(src: string, i: nat, keyword: string) returns (yes: bool)
    requires i <= |src| && '\0' !in keyword
    ensures yes == MatchKeyword(src, i, keyword)
  {
    var k := 0;
    while k < |keyword| && At(src, i + k) == keyword[k]
      invariant k <= |keyword| && i + k <= |src|
      invariant forall j :: 0 <= j < k ==> src[i + j] == keyword[j]
    {
      assert keyword[k] in keyword;
      k := k + 1;
    }
    yes := k == |keyword| && !IsIdentChar(At(src, i + k));
    KeywordMatches(src, i, keyword, k);
  }

  lemma KeywordMatches(src: string, i: nat, keyword: string, k: nat)
    requires i <= |src| && k <= |keyword| && i + k <= |src|
    requires forall j :: 0 <= j < k ==> src[i + j] == keyword[j]
    requires k < |keyword| ==> At(src, i + k) != keyword[k]
    ensures keyword <= src[i..] <==> k == |keyword|
  {
    if k == |keyword| {
      assert src[i..][..k] == keyword;
    } else if i + k < |src| {
      assert src[i..][k] == src[i + k];
    }
  }

  // Reads an identifier, keeping its first 15 characters.
  method ReadIdentifier(src: string, i: nat) returns (ok: bool, name: string, r: nat)
    requires i <= |src|
    ensures ok == IsIdentStart(At(src, i))
    ensures ok ==> name == Ident(src, i) && r == IdentEnd(src, i)
    ensures !ok ==> r == i
  {
    r := i;
    name := "";
    ok := IsIdentStart(At(src, i));
    if !ok { return; }
    while IsIdentChar(At(src, r))
      invariant i <= r <= |src| && IdentEnd(src, r) == IdentEnd(src, i)
      invariant name == Truncate(src[i..r], MAX_VAR_NAME_LEN - 1)
      decreases |src| - r
    {
      if |name| < MAX_VAR_NAME_LEN - 1 {
        name := name + [src[r]];
      }
      r := r + 1;
      assert src[i..r] == src[i..r - 1] + [src[r - 1]];
    }
  }

  method TrimEnd(s: string) returns (r: string)
    ensures r == TrimRight(s)
  {
    r := s;
    while r != [] && (r[|r| - 1] == ' ' || r[|r| - 1] == '\t')
      invariant TrimRight(r) == TrimRight(s)
      decreases |r|
    {
      r := r[..|r| - 1];
    }
  }

  lemma TruncateNothing(n: nat)
    ensures Truncate([], n) == []
  {
  }

  lemma TruncateNext(s: string, c: char, n: nat)
    ensures Truncate(s + [c], n) == if |Truncate(s, n)| < n then Truncate(s, n) + [c] else Truncate(s, n)
  {
  }

  // One argument of a native call, as text. There is none before a closing parenthesis, a comma
  // or the end of the text.
  method CaptureArgument(src: string, i: nat) returns (started: bool, text: string, r: nat)
    requires i <= |src|
    ensures var start := SkipInline(src, i);
      && r == ArgEnd(src, start, 0, false)
      && text == ArgText(src, start, r)
      && started == (r != start)
  {
    hide SkipInline, Truncate, TrimRight;
    var start := ScanInline(src, i);
    r := start;
    assert src[start..r] == [];
    TruncateNothing(MAX_STRING_LEN - 1);
    var depth: nat := 0;
    var quoted := false;
    text := "";
    while At(src, r) != '\0'
      invariant start <= r <= |src|
      invariant ArgEnd(src, r, depth, quoted) == ArgEnd(src, start, 0, false)
      invariant text == Truncate(src[start..r], MAX_STRING_LEN - 1)
      decreases |src| - r
    {
      var c := At(src, r);
      if quoted {
        quoted := c != QUOTE;
      } else if c == QUOTE {
        quoted := true;
      } else if c == '(' {
        depth := depth + 1;
      } else if c == ')' {
        if depth == 0 { break; }
        depth := depth - 1;
      } else if c == ',' && depth == 0 {
        break;
      }
      TruncateNext(src[start..r], c, MAX_STRING_LEN - 1);
      if |text| < MAX_STRING_LEN - 1 {
        text := text + [c];
      }
      r := r + 1;
      assert src[start..r] == src[start..r - 1] + [c];
    }
    started := r != start;
    text := TrimEnd(text);
  }

  // The body of a string literal, at most 127 characters of it.
  method ScanString(src: string, i: nat) returns (text: string, r: nat)
    requires i <= |src|
    ensures r == StringEnd(src, i, MAX_STRING_LEN - 1) && text == src[i..r] && |text| < MAX_STRING_LEN
  {
    text, r := "", i;
    while At(src, r) != '\0' && At(src, r) != QUOTE && |text| < MAX_STRING_LEN - 1
      invariant i <= r <= |src| && text == src[i..r] && |text| < MAX_STRING_LEN
      invariant StringEnd(src, r, MAX_STRING_LEN - 1 - |text|) == StringEnd(src, i, MAX_STRING_LEN - 1)
      decreases |src| - r
    {
      text := text + [src[r]];
      r := r + 1;
    }
  }

  method ScanDigits(src: string, i: nat) returns (v: int, r: nat)
    requires i <= |src|
    ensures (v, r) == Digits(src, i, 0)
  {
    v, r := 0, i;
    while IsDigit(At(src, r))
      invariant r <= |src| && Digits(src, r, v) == Digits(src, i, 0)
      decreases |src| - r
    {
      v := Wrap32(v * 10 + (src[r] - '0') as int);
      r := r + 1;
    }
  }

  // The arguments of a native call, up to three, or where a malformed call is given up.
  method ScanNativeCall(src: string, i: nat) returns (call: NativeCall)
    requires i <= |src|
    ensures call == NativeTail(src, i)
  {
    hide ArgEnd, ArgText, SkipInline;
    var cur := ScanInline(src, i);
    if At(src, cur) != '(' {
      return NoCall;
    }
    SkipTwice(src, cur + 1);
    cur := ScanInline(src, cur + 1);
    var args: seq<string> := [];
    if At(src, cur) == ')' {
      return Call(args, cur + 1);
    }
    ghost var first := cur;
    while true
      invariant cur <= |src| && |args| <= MAX_NATIVE_ARGS
      invariant SkipInline(src, cur) == cur
      invariant NativeArgs(src, cur, args) == NativeArgs(src, first, [])
      decreases |src| - cur
    {
      if |args| >= MAX_NATIVE_ARGS {
        return Malformed(cur);
      }
      var started, text, end := CaptureArgument(src, cur);
      if !started {
        return Malformed(cur);
      }
      args := args + [text];
      cur := ScanInline(src, end);
      if At(src, cur) == ',' {
        SkipTwice(src, cur + 1);
        cur := ScanInline(src, cur + 1);
      } else if At(src, cur) == ')' {
        return Call(args, cur + 1);
      } else {
        return Malformed(cur);
      }
    }
  }

  // ----- the compiler's state -----

  datatype LoopContext = LoopContext(start: nat, breakJumps: seq<nat>, continueJumps: seq<nat>)

  // The loop stack with more jumps recorded in its innermost loop.
  function Record(loops: seq<LoopContext>, breaks: seq<nat>, continues: seq<nat>): (r: seq<LoopContext>)
    ensures |r| == |loops|
  {
    if loops == [] then []
    else
      var top := loops[|loops| - 1];
      loops[|loops| - 1 := LoopContext(top.start, top.breakJumps + breaks, top.continueJumps + continues)]
  }

  lemma RecordNothing(loops: seq<LoopContext>)
    ensures Record(loops, [], []) == loops
  {
    if loops != [] {
      var top := loops[|loops| - 1];
      assert top.breakJumps + [] == top.breakJumps && top.continueJumps + [] == top.continueJumps;
    }
  }

  lemma RecordTwice(loops: seq<LoopContext>, b1: seq<nat>, c1: seq<nat>, b2: seq<nat>, c2: seq<nat>)
    ensures Record(Record(loops, b1, c1), b2, c2) == Record(loops, b1 + b2, c1 + c2)
    ensures LoopStart(Record(loops, b1, c1)) == LoopStart(loops)
  {
    if loops != [] {
      var top := loops[|loops| - 1];
      SeqAssoc(top.breakJumps, b1, b2);
      SeqAssoc(top.continueJumps, c1, c2);
    }
  }

  // The loop stack after compiling s at address a.
  function WithSites(loops: seq<LoopContext>, s: Stmt, a: nat): (r: seq<LoopContext>)
    ensures |r| == |loops|
    ensures JumpCount(s, true) == JumpCount(s, false) == 0 ==> r == loops
  {
    RecordNothing(loops);
    Record(loops, JumpSites(s, a, true), JumpSites(s, a, false))
  }

  function LoopStart(loops: seq<LoopContext>): nat {
    if loops == [] then 0 else loops[|loops| - 1].start
  }

  // The loop stack and the lists of recorded jumps stay inside their arrays.
  predicate LoopsHold(loops: seq<LoopContext>) {
    && |loops| <= MAX_LOOP_DEPTH
    && forall k :: 0 <= k < |loops| ==>
      |loops[k].breakJumps| <= MAX_LOOP_JUMPS && |loops[k].continueJumps| <= MAX_LOOP_JUMPS
  }

  predicate JumpsFit(s: Stmt, loops: seq<LoopContext>) {
    loops != [] ==>
      && |loops[|loops| - 1].breakJumps| + JumpCount(s, true) <= MAX_LOOP_JUMPS
      && |loops[|loops| - 1].continueJumps| + JumpCount(s, false) <= MAX_LOOP_JUMPS
  }

  lemma NoArgs(t: seq<string>)
    ensures InternAll(t, []) == t && PushArgs([], t) == []
  {
  }

  lemma NextArg(t: seq<string>, args: seq<string>, n: nat)
    requires n < |args|
    ensures InternAll(t, args[..n + 1]) == Intern(InternAll(t, args[..n]), args[n])
    ensures PushArgs(args[..n + 1], t)
      == PushArgs(args[..n], t) + [Instruction(PUSH_STR, Slot(InternAll(t, args[..n + 1]), args[n], MAX_STRINGS))]
  {
    assert args[..n + 1][..n] == args[..n];
  }

  lemma NativeIs(id: nat, args: seq<string>, t: Tables)
    ensures GenExpr(Native(id, args), t) == PushArgs(args, t.strs) + [Instruction(NATIVE_CALL, id)]
    ensures InternExpr(t, Native(id, args)) == Tables(t.vars, InternAll(t.strs, args))
    ensures ExprSize(Native(id, args)) == |args| + 1
  {
  }

  class Compiler {
    const src: string
    const code: array<Instruction>
    var p: nat
    var ip: nat
    var names: seq<string>
    var strings: seq<string>
    // All names and strings that have come, kept or not.
    ghost var allNames: seq<string>
    ghost var allStrings: seq<string>
    var loops: seq<LoopContext>

    ghost predicate Valid()
      reads this
    {
      && ip <= code.Length && p <= |src|
      && names == Kept(allNames, MAX_VARS) && strings == Kept(allStrings, MAX_STRINGS)
      && LoopsHold(loops)
    }

    // The code emitted so far.
    ghost function Emitted(): seq<Instruction>
      requires ip <= code.Length
      reads this`ip, code
    {
      code[..ip]
    }

    ghost function Tabs(): Tables
      reads this`allNames, this`allStrings
    {
      Tables(allNames, allStrings)
    }

    constructor (src: string, code: array<Instruction>)
      ensures this.src == src && this.code == code && Valid()
      ensures p == 0 && ip == 0 && loops == [] && Tabs() == NO_TABLES && Emitted() == []
    {
      this.src, this.code := src, code;
      p, ip, names, strings, loops := 0, 0, [], [], [];
      allNames, allStrings := [], [];
    }

    method Emit(op: OpCode, arg: int)
      requires ip < code.Length
      modifies this`ip, code
      ensures ip == old(ip) + 1
      ensures Emitted() == old(Emitted()) + [Instruction(op, arg)]
    {
      code[ip] := Instruction(op, arg);
      ip := ip + 1;
    }

    // The index of a variable, given a slot on its first use; with all slots taken, the last one.
    method VarIndex(name: string) returns (i: nat)
      requires names == Kept(allNames, MAX_VARS) && |name| < MAX_VAR_NAME_LEN
      modifies this`names, this`allNames
      ensures allNames == Intern(old(allNames), name) && names == Kept(allNames, MAX_VARS)
      ensures i == Slot(allNames, name, MAX_VARS)
    {
      ghost var all := allNames;
      allNames := Intern(all, name);
      var k := 0;
      while k < |names|
        invariant k <= |names| && name !in names[..k]
      {
        if names[k] == name {
          SlotFound(all, name, k, MAX_VARS);
          return k;
        }
        k := k + 1;
      }
      SlotMissing(all, name, MAX_VARS);
      if |names| >= MAX_VARS {
        return MAX_VARS - 1;
      }
      names := names + [Truncate(name, MAX_VAR_NAME_LEN - 1)];
      i := |names| - 1;
    }

    // The index of a string in the pool; with the pool full, the last string's.
    method AddString(s: string) returns (i: nat)
      requires strings == Kept(allStrings, MAX_STRINGS) && |s| < MAX_STRING_LEN
      modifies this`strings, this`allStrings
      ensures allStrings == Intern(old(allStrings), s) && strings == Kept(allStrings, MAX_STRINGS)
      ensures i == Slot(allStrings, s, MAX_STRINGS)
    {
      ghost var all := allStrings;
      allStrings := Intern(all, s);
      var k := 0;
      while k < |strings|
        invariant k <= |strings| && s !in strings[..k]
      {
        if strings[k] == s {
          SlotFound(all, s, k, MAX_STRINGS);
          return k;
        }
        k := k + 1;
      }
      SlotMissing(all, s, MAX_STRINGS);
      if |strings| >= MAX_STRINGS {
        return MAX_STRINGS - 1;
      }
      strings := strings + [Truncate(s, MAX_STRING_LEN - 1)];
      i := |strings| - 1;
    }

    // ----- expressions; p is the reading position -----

    method EmitCall(id: nat, args: seq<string>)
      requires Valid() && ExprFits(Native(id, args), code.Length - ip)
      requires forall k :: 0 <= k < |args| ==> |args[k]| < MAX_STRING_LEN
      modifies this`ip, this`strings, this`allStrings, code
      ensures Valid() && ip == old(ip) + ExprSize(Native(id, args))
      ensures Emitted() == old(Emitted()) + GenExpr(Native(id, args), old(Tabs()))
      ensures Tabs() == InternExpr(old(Tabs()), Native(id, args))
    {
      hide Kept, Slot, Intern, InternAll, PushArgs;
      NoArgs(old(allStrings));
      assert args[..0] == [];
      NativeIs(id, args, old(Tabs()));
      var n := 0;
      while n < |args|
        invariant Valid() && n <= |args| && ip == old(ip) + n
        invariant allStrings == InternAll(old(allStrings), args[..n]) && allNames == old(allNames)
        invariant Emitted() == old(Emitted()) + PushArgs(args[..n], old(allStrings))
      {
        NextArg(old(allStrings), args, n);
        var index := AddString(args[n]);
        Emit(PUSH_STR, index);
        n := n + 1;
      }
      assert args[..n] == args;
      Emit(NATIVE_CALL, id);
    }

    // e has been compiled after base, the tables having been t.
    ghost predicate Has(e: Expr, base: seq<Instruction>, t: Tables)
      reads this, code
    {
      && Valid() && ip == |base| + ExprSize(e)
      && Emitted() == base + GenExpr(e, t) && Tabs() == InternExpr(t, e)
    }

    lemma HasIs(e: Expr, base: seq<Instruction>, t: Tables)
      ensures Has(e, base, t) <==>
        && Valid() && ip == |base| + ExprSize(e)
        && Emitted() == base + GenExpr(e, t) && Tabs() == InternExpr(t, e)
    {
    }

    ghost predicate Room(e: Expr)
      reads this
    {
      ExprFits(e, code.Length - ip)
    }

    method CompileFactor()
      requires Valid() && Room(ParseFactor(src, p).0)
      modifies this`p, this`ip, this`names, this`strings, this`allNames, this`allStrings, code
      ensures p == ParseFactor(src, old(p)).1
      ensures Has(ParseFactor(src, old(p)).0, old(Emitted()), old(Tabs()))
      decreases |src| - p, 0
    {
      hide ParseExpr, ParseString, ParseName, SkipInline, Kept, Digits, Has;
      p := ScanInline(src, p);
      var c := At(src, p);
      if c == QUOTE {
        p := p + 1;
        CompileString();
      } else if c == '(' {
        p := p + 1;
        CompileParens();
      } else if IsDigit(c) {
        CompileNumber();
      } else {
        CompileName();
      }
    }

    // An expression and the closing parenthesis, if it is there.
    method CompileParens()
      requires Valid() && Room(ParseExpr(src, p).0)
      modifies this`p, this`ip, this`names, this`strings, this`allNames, this`allStrings, code
      ensures
        var (e, j) := ParseExpr(src, old(p));
        var k := SkipInline(src, j);
        p == (if At(src, k) == ')' then k + 1 else k) && Has(e, old(Emitted()), old(Tabs()))
      decreases |src| - p, 5
    {
      hide ParseExpr, SkipInline, Kept, Has, GenExpr, InternExpr;
      ghost var base, t, e := Emitted(), Tabs(), ParseExpr(src, p).0;
      CompileExpr();
      HasIs(e, base, t);
      p := ScanInline(src, p);
      if At(src, p) == ')' { p := p + 1; }
      HasIs(e, base, t);
    }

    method CompileNumber()
      requires Valid() && Room(Num(0))
      modifies this`p, this`ip, code
      ensures var (v, j) := Digits(src, old(p), 0); p == j && Has(Num(v), old(Emitted()), old(Tabs()))
    {
      hide Digits, Kept;
      var v, end := ScanDigits(src, p);
      p := end;
      Emit(PUSH_INT, v);
    }

    method CompileString()
      requires Valid() && Room(ParseString(src, p).0)
      modifies this`p, this`ip, this`strings, this`allStrings, code
      ensures p == ParseString(src, old(p)).1
      ensures Has(ParseString(src, old(p)).0, old(Emitted()), old(Tabs()))
    {
      var text, end := ScanString(src, p);
      p := if At(src, end) == QUOTE then end + 1 else end;
      var index := AddString(text);
      Emit(PUSH_STR, index);
    }

    // A variable, a native call, or, when there is no name here, the constant 0.
    method CompileName()
      requires Valid() && Room(ParseName(src, p).0)
      modifies this`p, this`ip, this`names, this`strings, this`allNames, this`allStrings, code
      ensures p == ParseName(src, old(p)).1
      ensures Has(ParseName(src, old(p)).0, old(Emitted()), old(Tabs()))
    {
      hide NativeTail, NativeId, IdentEnd, Ident, Intern, Kept, PushArgs, InternAll, Slot;
      var ok, name, after := ReadIdentifier(src, p);
      if !ok {
        Emit(PUSH_INT, 0);
        return;
      }
      var id := NativeId(name);
      if id >= 0 {
        var called := CompileCall(id, after);
        if called {
          return;
        }
      }
      p := after;
      var index := VarIndex(name);
      Emit(LOAD_VAR, index);
    }

    // A native call, unless no parenthesis follows the name; a malformed one is the constant 0.
    method CompileCall(id: nat, i: nat) returns (called: bool)
      requires Valid() && i <= |src|
      requires NativeTail(src, i).Call? ==> Room(Native(id, NativeTail(src, i).args))
      requires NativeTail(src, i).Malformed? ==> Room(Num(0))
      modifies this`p, this`ip, this`strings, this`allStrings, code
      ensures called == !NativeTail(src, i).NoCall?
      ensures !called ==>
        Valid() && p == old(p) && ip == old(ip) && Emitted() == old(Emitted()) && Tabs() == old(Tabs())
      ensures called ==> p == NativeTail(src, i).resume
      ensures called ==>
        Has(match NativeTail(src, i) case Call(args, _) => Native(id, args) case _ => Num(0),
            old(Emitted()), old(Tabs()))
    {
      hide NativeTail, Kept, PushArgs, InternAll, Intern, Slot;
      var call := ScanNativeCall(src, i);
      match call {
        case Call(args, resume) =>
          p := resume;
          EmitCall(id, args);
        case Malformed(resume) =>
          p := resume;
          Emit(PUSH_INT, 0);
        case NoCall =>
      }
      called := !call.NoCall?;
    }

    // The operation that follows its two operands.
    method EmitOp(op: BinOp, ghost l: Expr, ghost r: Expr, ghost base: seq<Instruction>, ghost t: Tables)
      requires Has(r, base + GenExpr(l, t), InternExpr(t, l)) && ExprFits(Bin(op, l, r), code.Length - |base|)
      modifies this`ip, code
      ensures Has(Bin(op, l, r), base, t)
    {
      GenBin(op, l, r, t);
      hide InternExpr, GenExpr, Kept;
      Emit(OpOf(op), 0);
    }

    method CompileTerm()
      requires Valid() && Room(ParseTerm(src, p).0)
      modifies this`p, this`ip, this`names, this`strings, this`allNames, this`allStrings, code
      ensures p == ParseTerm(src, old(p)).1
      ensures Has(ParseTerm(src, old(p)).0, old(Emitted()), old(Tabs()))
      decreases |src| - p, 2
    {
      hide ParseFactor, ParseTerm, ParseExpr, ParseCompare, TermRest, ExprRest, CompareRest, GenExpr, InternExpr,
        Kept, ExprSize, SkipInline, Has;
      ghost var base, t, room := Emitted(), Tabs(), code.Length - ip;
      ghost var acc := ParseFactor(src, p).0;
      ParseTermStart(src, p);
      TermRestFits(src, ParseFactor(src, p).1, acc, room);
      CompileFactor();
      while true
        invariant old(p) <= p <= |src| && Has(acc, base, t)
        invariant TermRest(src, p, acc) == ParseTerm(src, old(p))
        decreases |src| - p
      {
        TermRestStep(src, p, acc);
        HasIs(acc, base, t);
        p := ScanInline(src, p);
        HasIs(acc, base, t);
        if At(src, p) != '*' && At(src, p) != '/' { break; }
        var op := if At(src, p) == '*' then Mul else Div;
        p := p + 1;
        ghost var f := ParseFactor(src, p).0;
        TermRestFits(src, ParseFactor(src, p).1, Bin(op, acc, f), room);
        FitsBin(op, acc, f, room);
        CompileFactor();
        EmitOp(op, acc, f, base, t);
        acc := Bin(op, acc, f);
      }
    }

    method CompileExpr()
      requires Valid() && Room(ParseExpr(src, p).0)
      modifies this`p, this`ip, this`names, this`strings, this`allNames, this`allStrings, code
      ensures p == ParseExpr(src, old(p)).1
      ensures Has(ParseExpr(src, old(p)).0, old(Emitted()), old(Tabs()))
      decreases |src| - p, 4
    {
      hide ParseFactor, ParseTerm, ParseExpr, ParseCompare, TermRest, ExprRest, CompareRest, GenExpr, InternExpr,
        Kept, ExprSize, SkipInline, Has;
      ghost var base, t, room := Emitted(), Tabs(), code.Length - ip;
      ghost var acc := ParseTerm(src, p).0;
      ParseExprStart(src, p);
      ExprRestFits(src, ParseTerm(src, p).1, acc, room);
      CompileTerm();
      while true
        invariant old(p) <= p <= |src| && Has(acc, base, t)
        invariant ExprRest(src, p, acc) == ParseExpr(src, old(p))
        decreases |src| - p
      {
        ExprRestStep(src, p, acc);
        HasIs(acc, base, t);
        p := ScanInline(src, p);
        HasIs(acc, base, t);
        if At(src, p) != '+' && At(src, p) != '-' { break; }
        var op := if At(src, p) == '+' then Add else Sub;
        p := p + 1;
        ghost var f := ParseTerm(src, p).0;
        ExprRestFits(src, ParseTerm(src, p).1, Bin(op, acc, f), room);
        FitsBin(op, acc, f, room);
        CompileTerm();
        EmitOp(op, acc, f, base, t);
        acc := Bin(op, acc, f);
      }
    }

    method CompileCompare()
      requires Valid() && Room(ParseCompare(src, p).0)
      modifies this`p, this`ip, this`names, this`strings, this`allNames, this`allStrings, code
      ensures p == ParseCompare(src, old(p)).1
      ensures Has(ParseCompare(src, old(p)).0, old(Emitted()), old(Tabs()))
    {
      hide ParseFactor, ParseTerm, ParseExpr, ParseCompare, TermRest, ExprRest, CompareRest, GenExpr, InternExpr,
        Kept, ExprSize, SkipInline, Has;
      ghost var base, t, room := Emitted(), Tabs(), code.Length - ip;
      ghost var acc := ParseExpr(src, p).0;
      ParseCompareStart(src, p);
      CompareRestFits(src, ParseExpr(src, p).1, acc, room);
      CompileExpr();
      while true
        invariant old(p) <= p <= |src| && Has(acc, base, t)
        invariant CompareRest(src, p, acc) == ParseCompare(src, old(p))
        decreases |src| - p
      {
        CompareRestStep(src, p, acc);
        HasIs(acc, base, t);
        p := ScanInline(src, p);
        HasIs(acc, base, t);
        var here := CompareOp(src, p);
        if here.None? { break; }
        var (op, len) := here.value;
        p := p + len;
        ghost var f := ParseExpr(src, p).0;
        CompareRestFits(src, ParseExpr(src, p).1, Bin(op, acc, f), room);
        FitsBin(op, acc, f, room);
        CompileExpr();
        EmitOp(op, acc, f, base, t);
        acc := Bin(op, acc, f);
      }
    }

    // ----- statements; a method returns where reading goes on -----

    // s has been compiled after base, the tables and the loop stack having been t and ls.
    ghost predicate HasStmt(s: Stmt, base: seq<Instruction>, t: Tables, ls: seq<LoopContext>)
      reads this, code
    {
      && Valid() && ip == |base| + StmtSize(s)
      && Emitted() == base + GenStmt(s, |base|, 0, LoopStart(ls), t)
      && Tabs() == InternStmt(t, s) && loops == WithSites(ls, s, |base|)
    }

    ghost predicate RoomStmt(s: Stmt)
      reads this
    {
      StmtFits(s, code.Length - ip) && JumpsFit(s, loops)
    }

    method CompileAt(i: nat)
      requires Valid() && i <= |src| && Room(ParseCompare(src, i).0)
      modifies this`p, this`ip, this`names, this`strings, this`allNames, this`allStrings, code
      ensures p == ParseCompare(src, i).1
      ensures Has(ParseCompare(src, i).0, old(Emitted()), old(Tabs()))
    {
      p := i;
      CompileCompare();
    }

    method CompilePrint(i: nat) returns (r: nat)
      requires Valid() && i <= |src| && RoomStmt(ParsePrint(src, i).0)
      modifies this`p, this`ip, this`names, this`strings, this`allNames, this`allStrings, code
      ensures r == ParsePrint(src, i).1
      ensures HasStmt(ParsePrint(src, i).0, old(Emitted()), old(Tabs()), old(loops))
    {
      hide ParseCompare, GenExpr, InternExpr, Kept, SkipInline, Find, ExprSize;
      var j := ScanInline(src, i);
      CompileAt(j);
      Emit(PRINT, 0);
      r := ScanTo(src, j, '\n');
    }

    method CompileRight(x: string, i: nat) returns (r: nat)
      requires Valid() && i <= |src| && |x| < MAX_VAR_NAME_LEN && RoomStmt(ParseRight(src, x, i).0)
      modifies this`p, this`ip, this`names, this`strings, this`allNames, this`allStrings, code
      ensures r == ParseRight(src, x, i).1
      ensures HasStmt(ParseRight(src, x, i).0, old(Emitted()), old(Tabs()), old(loops))
    {
      hide ParseCompare, GenExpr, InternExpr, Slot, Kept, Intern, SkipInline, Find, ExprSize;
      var j := ScanInline(src, i);
      CompileAt(j);
      var index := VarIndex(x);
      Emit(STORE_VAR, index);
      r := ScanTo(src, i, '\n');
    }

    method CompileInt(i: nat) returns (r: nat)
      requires Valid() && i <= |src| && RoomStmt(ParseInt(src, i).0)
      modifies this`p, this`ip, this`names, this`strings, this`allNames, this`allStrings, code
      ensures r == ParseInt(src, i).1
      ensures HasStmt(ParseInt(src, i).0, old(Emitted()), old(Tabs()), old(loops))
    {
      hide ParseRight, SkipInline, HasStmt, RoomStmt, Ident, IdentEnd;
      var j := ScanInline(src, i);
      var ok, name, after := ReadIdentifier(src, j);
      if !ok {
        r := ScanTo(src, j, '\n');
        SkipCompiled();
        return;
      }
      var k := ScanInline(src, after);
      if At(src, k) == '=' {
        r := CompileRight(name, k + 1);
      } else {
        CompileZero(name);
        r := ScanTo(src, k, '\n');
      }
    }

    // A declaration without a value.
    method CompileZero(x: string)
      requires Valid() && |x| < MAX_VAR_NAME_LEN && RoomStmt(Assign(x, Num(0)))
      modifies this`ip, this`names, this`allNames, code
      ensures HasStmt(Assign(x, Num(0)), old(Emitted()), old(Tabs()), old(loops))
    {
      Emit(PUSH_INT, 0);
      var index := VarIndex(x);
      Emit(STORE_VAR, index);
    }

    method CompileRead(i: nat) returns (r: nat)
      requires Valid() && i <= |src| && RoomStmt(ParseRead(src, i).0)
      modifies this`p, this`ip, this`names, this`strings, this`allNames, this`allStrings, code
      ensures r == ParseRead(src, i).1
      ensures HasStmt(ParseRead(src, i).0, old(Emitted()), old(Tabs()), old(loops))
    {
      var j := ScanInline(src, i);
      var ok, name, after := ReadIdentifier(src, j);
      if !ok {
        r := ScanTo(src, j, '\n');
        return;
      }
      var index := VarIndex(name);
      Emit(READ_INT, index);
      r := ScanTo(src, after, '\n');
    }

    method CompileAssign(i: nat) returns (r: nat)
      requires Valid() && i <= |src| && IsIdentStart(At(src, i)) && RoomStmt(ParseAssign(src, i).0)
      modifies this`p, this`ip, this`names, this`strings, this`allNames, this`allStrings, code
      ensures r == ParseAssign(src, i).1
      ensures HasStmt(ParseAssign(src, i).0, old(Emitted()), old(Tabs()), old(loops))
    {
      var ok, name, after := ReadIdentifier(src, i);
      var k := ScanInline(src, after);
      if At(src, k) != '=' {
        r := ScanTo(src, k, '\n');
      } else {
        r := CompileRight(name, k + 1);
      }
    }

    // break and continue: a jump recorded in the innermost loop's context.
    method CompileJump(breaks: bool)
      requires Valid()
      requires RoomStmt(if loops == [] then Skip else if breaks then Break else Continue)
      modifies this`ip, this`loops, code
      ensures HasStmt(if old(loops) == [] then Skip else if breaks then Break else Continue,
                      old(Emitted()), old(Tabs()), old(loops))
    {
      if loops != [] {
        var top := |loops| - 1;
        assert loops[top].breakJumps + [] == loops[top].breakJumps;
        assert loops[top].continueJumps + [] == loops[top].continueJumps;
        if breaks {
          loops := loops[top := loops[top].(breakJumps := loops[top].breakJumps + [ip])];
          Emit(JMP, 0);
        } else {
          loops := loops[top := loops[top].(continueJumps := loops[top].continueJumps + [ip])];
          Emit(JMP, loops[top].start);
        }
      }
    }

    method CompileSimple(i: nat) returns (r: nat)
      requires Valid() && i <= |src| && !AtEnd(At(src, i)) && !IsSpace(At(src, i))
      requires RoomStmt(ParseSimple(src, i, |loops|).0)
      modifies this, code
      ensures r == ParseSimple(src, i, |old(loops)|).1
      ensures HasStmt(ParseSimple(src, i, |old(loops)|).0, old(Emitted()), old(Tabs()), old(loops))
    {
      hide Valid, HasStmt, RoomStmt, ParsePrint, ParseInt, ParseRead, ParseAssign, MatchKeyword, Find;
      var yes := IsKeyword(src, i, "print");
      if yes {
        r := CompilePrint(i + 5);
        return;
      }
      yes := IsKeyword(src, i, "break");
      if yes {
        CompileJump(true);
        r := ScanTo(src, i, '\n');
        return;
      }
      yes := IsKeyword(src, i, "continue");
      if yes {
        CompileJump(false);
        r := ScanTo(src, i, '\n');
        return;
      }
      yes := IsKeyword(src, i, "int");
      if yes {
        r := CompileInt(i + 3);
        return;
      }
      yes := IsKeyword(src, i, "read");
      if yes {
        r := CompileRead(i + 4);
        return;
      }
      if IsIdentStart(At(src, i)) {
        r := CompileAssign(i);
      } else {
        SkipCompiled();
        r := ScanTo(src, i, '\n');
      }
    }

    method CompileStatement(i: nat) returns (r: nat)
      requires Valid() && i <= |src|
      requires RoomStmt(ParseStmt(src, i, |loops|).0)
      modifies this, code
      ensures r == ParseStmt(src, i, |old(loops)|).1
      ensures HasStmt(ParseStmt(src, i, |old(loops)|).0, old(Emitted()), old(Tabs()), old(loops))
      decreases |src| - SkipSpace(src, i), 2
    {
      hide HasStmt, RoomStmt, ParseSimple, ParseIf, ParseWhile, MatchKeyword;
      r := ScanSpace(src, i);
      if AtEnd(At(src, r)) {
        SkipCompiled();
        return;
      }
      var yes := IsKeyword(src, r, "if");
      if yes {
        KeywordFits(src, r, "if");
        r := CompileIf(r + 2);
        return;
      }
      yes := IsKeyword(src, r, "while");
      if yes {
        KeywordFits(src, r, "while");
        r := CompileWhile(r + 5);
        return;
      }
      r := CompileSimple(r);
    }

    // A condition and the jump over what it guards, still without a target.
    method CompileGuard(i: nat) returns (jump: nat)
      requires Valid() && i <= |src|
      requires var c := ParseCompare(src, i).0; ExprFits(c, code.Length - ip - 1)
      modifies this`p, this`ip, this`names, this`strings, this`allNames, this`allStrings, code
      ensures var c := ParseCompare(src, i).0;
        && Valid() && p == ParseCompare(src, i).1
        && jump == old(ip) + ExprSize(c) && ip == jump + 1
        && Emitted() == old(Emitted()) + Guard(c, old(Tabs()), 0)
        && Tabs() == InternExpr(old(Tabs()), c)
    {
      hide ParseCompare, GenExpr, InternExpr;
      CompileAt(i);
      jump := ip;
      Emit(JMP_IF_FALSE, 0);
    }

    method SetArg(at: nat, arg: int)
      requires at < ip <= code.Length
      modifies code
      ensures Emitted() == old(Emitted())[at := old(Emitted())[at].(arg := arg)]
    {
      code[at] := code[at].(arg := arg);
    }

    method PatchAll(sites: seq<nat>, target: int)
      requires ip <= code.Length
      requires forall k :: 0 <= k < |sites| ==> sites[k] < ip
      modifies code
      ensures Emitted() == Patch(old(Emitted()), sites, target)
    {
      var k := 0;
      while k < |sites|
        invariant k <= |sites|
        invariant Emitted() == Patch(old(Emitted()), sites[..k], target)
      {
        assert sites[..k + 1][..k] == sites[..k];
        SetArg(sites[k], target);
        k := k + 1;
      }
      assert sites[..k] == sites;
    }

    method CompileBlock(i: nat) returns (r: nat)
      requires Valid() && i <= |src|
      requires RoomStmt(ParseBlock(src, i, |loops|).0)
      modifies this, code
      ensures r == ParseBlock(src, i, |old(loops)|).1
      ensures HasStmt(ParseBlock(src, i, |old(loops)|).0, old(Emitted()), old(Tabs()), old(loops))
      decreases |src| - i, 4
    {
      hide HasStmt, ParseStmt, ParseStmts, StmtFits, JumpsFit;
      r := ScanSpace(src, i);
      if At(src, r) != '{' {
        SkipCompiled();
        return;
      }
      r := r + 1;
      ghost var base, t, ls, room := Emitted(), Tabs(), loops, code.Length - ip;
      ghost var acc := Skip;
      ghost var start := r;
      SkipCompiled();
      while At(src, r) != '\0' && At(src, r) != '}'
        invariant start <= r <= |src| && Valid()
        invariant HasStmt(acc, base, t, ls)
        invariant ParseStmts(src, r, |ls|, acc) == ParseStmts(src, start, |ls|, Skip)
        invariant StmtFits(ParseStmts(src, r, |ls|, acc).0, room) && JumpsFit(ParseStmts(src, r, |ls|, acc).0, ls)
        decreases |src| - r
      {
        ghost var s := ParseStmt(src, r, |ls|).0;
        NextStmtFits(src, r, acc, base, t, ls, room);
        r := CompileStatement(r);
        SeqCompiled(acc, s, base, t, ls);
        acc := Seq(acc, s);
        r := ScanSpace(src, r);
      }
      StmtsEnd(src, r, |ls|, acc);
      if At(src, r) == '}' {
        r := r + 1;
      }
    }

    // What is known of the next statement of a block, and of the state it is compiled in.
    lemma NextStmtFits(src: string, i: nat, acc: Stmt, base: seq<Instruction>, t: Tables, ls: seq<LoopContext>,
                       room: int)
      requires src == this.src && i <= |src| && !AtEnd(At(src, i))
      requires Valid() && HasStmt(acc, base, t, ls) && room == code.Length - |base|
      requires StmtFits(ParseStmts(src, i, |ls|, acc).0, room) && JumpsFit(ParseStmts(src, i, |ls|, acc).0, ls)
      ensures RoomStmt(ParseStmt(src, i, |ls|).0)
      ensures |loops| == |ls| && Tabs() == InternStmt(t, acc)
      ensures Emitted() == base + GenStmt(acc, |base|, 0, LoopStart(ls), t)
      ensures loops == WithSites(ls, acc, |base|)
      ensures var (s, j) := ParseStmt(src, i, |ls|);
        ParseStmts(src, i, |ls|, acc) == ParseStmts(src, SkipSpace(src, j), |ls|, Seq(acc, s)) && SkipSpace(src, j) > i
    {
      hide GenStmt, WithSites, InternStmt, StmtSize, LoopStart, ParseStmt, ParseStmts, StmtFits, JumpsFit;
      var (s, j) := ParseStmt(src, i, |ls|);
      StmtsStep(src, i, |ls|, acc);
      StmtsFit(src, SkipSpace(src, j), |ls|, Seq(acc, s), room, ls);
      FitsSeq(acc, s, room, ls, |base|);
    }

    lemma SeqCompiled(s1: Stmt, s2: Stmt, base: seq<Instruction>, t: Tables, ls: seq<LoopContext>)
      requires HasStmt(s2, base + GenStmt(s1, |base|, 0, LoopStart(ls), t), InternStmt(t, s1),
                       WithSites(ls, s1, |base|))
      ensures HasStmt(Seq(s1, s2), base, t, ls) && Valid()
    {
      hide GenStmt, WithSites, InternStmt, StmtSize, LoopStart, Kept;
      WithSitesSeq(ls, s1, s2, |base|);
      SeqCode(s1, s2, base, LoopStart(ls), t);
    }

    method CompileIf(i: nat) returns (r: nat)
      requires Valid() && i <= |src|
      requires RoomStmt(ParseIf(src, i, |loops|).0)
      modifies this, code
      ensures r == ParseIf(src, i, |old(loops)|).1
      ensures HasStmt(ParseIf(src, i, |old(loops)|).0, old(Emitted()), old(Tabs()), old(loops))
      decreases |src| - i, 1
    {
      hide HasStmt, ParseBlock, ParseCompare, GenExpr, GenStmt, StmtFits, JumpsFit, InternExpr, InternStmt,
        MatchKeyword, WithSites, StmtSize, LoopStart, Kept, SkipInline, SkipSpace, Find;
      r := ScanInline(src, i);
      if At(src, r) != '(' {
        r := ScanTo(src, r, '\n');
        SkipCompiled();
        return;
      }
      r := r + 1;
      ghost var base, t, ls := Emitted(), Tabs(), loops;
      ghost var c := ParseCompare(src, r).0;
      ghost var b := ParseBlock(src, PastParen(src, r), |ls|).0;
      GuardedFits(c, b, ParseIf(src, i, |ls|).0, code.Length - ip, ls);
      var jumpFalse := CompileGuard(r);
      r := ScanPastParen(src, r);
      r := CompileBlock(r);
      r := CompileElse(r, jumpFalse, c, b, base, t, ls);
    }

    // What follows the then branch: the else branch, when the keyword is next.
    method CompileElse(i: nat, jumpFalse: nat, ghost c: Expr, ghost b: Stmt, ghost base: seq<Instruction>,
                       ghost t: Tables, ghost ls: seq<LoopContext>) returns (r: nat)
      requires i <= |src| && jumpFalse == |base| + ExprSize(c)
      requires HasStmt(b, base + Guard(c, t, 0), InternExpr(t, c), ls)
      requires
        var s := ParseElse(src, i, |ls|, c, b).0;
        StmtFits(s, code.Length - |base|) && JumpsFit(s, ls)
      modifies this, code
      ensures r == ParseElse(src, i, |ls|, c, b).1
      ensures HasStmt(ParseElse(src, i, |ls|, c, b).0, base, t, ls)
      decreases |src| - i, 5
    {
      hide HasStmt, ParseBlock, GenExpr, GenStmt, StmtFits, JumpsFit, InternExpr, InternStmt, MatchKeyword,
        WithSites, StmtSize, LoopStart, Kept, SkipSpace, Guard;
      r := ScanSpace(src, i);
      var yes := IsKeyword(src, r, "else");
      if yes {
        KeywordFits(src, r, "else");
        ghost var f := ParseBlock(src, r + 4, |ls|).0;
        ElseFits(c, b, f, code.Length - |base|, ls, |base| + ExprSize(c) + 1);
        var jumpEnd := StartElse(jumpFalse, c, b, f, base, t, ls);
        r := CompileBlock(r + 4);
        FinishElse(jumpEnd, c, b, f, base, t, ls);
      } else {
        FinishIf(jumpFalse, c, b, base, t, ls);
      }
    }

    method FinishIf(jumpFalse: nat, ghost c: Expr, ghost b: Stmt, ghost base: seq<Instruction>,
                    ghost t: Tables, ghost ls: seq<LoopContext>)
      requires HasStmt(b, base + Guard(c, t, 0), InternExpr(t, c), ls) && jumpFalse == |base| + ExprSize(c)
      modifies code
      ensures HasStmt(If(c, b), base, t, ls)
    {
      hide GenStmt, GenExpr, InternExpr, InternStmt, WithSites, LoopStart, JumpSites, Guard, Kept, StmtSize;
      GenIf(c, b, base, LoopStart(ls), t);
      IfTables(c, b, t);
      IfSites(c, b, |base|, true);
      IfSites(c, b, |base|, false);
      GuardRetarget(base, c, t, GenStmt(b, |base| + ExprSize(c) + 1, 0, LoopStart(ls), InternExpr(t, c)), ip);
      WithSitesSame(ls, b, If(c, b), |base| + ExprSize(c) + 1, |base|);
      SetArg(jumpFalse, ip);
    }

    // The jump over the else branch, at the end of the then branch.
    method StartElse(jumpFalse: nat, ghost c: Expr, ghost b: Stmt, ghost f: Stmt, ghost base: seq<Instruction>,
                     ghost t: Tables, ghost ls: seq<LoopContext>) returns (jumpEnd: nat)
      requires HasStmt(b, base + Guard(c, t, 0), InternExpr(t, c), ls) && jumpFalse == |base| + ExprSize(c)
      requires |base| + ExprSize(c) + 1 + StmtSize(b) < code.Length
      modifies this`ip, code
      ensures Valid() && jumpEnd == old(ip) == |base| + ExprSize(c) + 1 + StmtSize(b) && ip == jumpEnd + 1
      ensures Emitted() == ThenPart(c, b, base, t, ls) + [Instruction(JMP, 0)]
      ensures Tabs() == InternStmt(InternExpr(t, c), b)
      ensures loops == WithSites(ls, b, |base| + ExprSize(c) + 1)
    {
      hide GenStmt, GenExpr, InternStmt, InternExpr, WithSites, LoopStart, Kept, Guard, StmtSize;
      ghost var g := GenStmt(b, |base| + ExprSize(c) + 1, 0, LoopStart(ls), InternExpr(t, c));
      jumpEnd := ip;
      Emit(JMP, 0);
      GuardRetarget(base, c, t, g + [Instruction(JMP, 0)], ip);
      SeqAssoc(base + Guard(c, t, 0), g, [Instruction(JMP, 0)]);
      SeqAssoc(base + Guard(c, t, ip), g, [Instruction(JMP, 0)]);
      SetArg(jumpFalse, ip);
    }

    method FinishElse(jumpEnd: nat, ghost c: Expr, ghost b: Stmt, ghost f: Stmt, ghost base: seq<Instruction>,
                      ghost t: Tables, ghost ls: seq<LoopContext>)
      requires jumpEnd == |base| + ExprSize(c) + 1 + StmtSize(b)
      requires HasStmt(f, ThenPart(c, b, base, t, ls) + [Instruction(JMP, 0)], InternStmt(InternExpr(t, c), b),
                       WithSites(ls, b, |base| + ExprSize(c) + 1))
      modifies code
      ensures HasStmt(IfElse(c, b, f), base, t, ls)
    {
      hide GenStmt, GenExpr, InternExpr, WithSites, LoopStart, ThenPart, Guard;
      WithSitesIfElse(ls, c, b, f, |base|);
      GenIfElse(c, b, f, base, ls, t);
      SetArg(jumpEnd, ip);
    }

    method CompileWhile(i: nat) returns (r: nat)
      requires Valid() && i <= |src|
      requires RoomStmt(ParseWhile(src, i, |loops|).0)
      modifies this, code
      ensures r == ParseWhile(src, i, |old(loops)|).1
      ensures HasStmt(ParseWhile(src, i, |old(loops)|).0, old(Emitted()), old(Tabs()), old(loops))
      decreases |src| - i, 1
    {
      hide HasStmt, ParseBlock, ParseCompare, GenExpr, GenStmt, StmtFits, JumpsFit, InternExpr, InternStmt,
        WithSites, StmtSize, LoopStart, Kept, SkipInline, SkipSpace, Find;
      r := ScanInline(src, i);
      if At(src, r) != '(' {
        r := ScanTo(src, r, '\n');
        SkipCompiled();
        return;
      }
      r := r + 1;
      if |loops| >= MAX_LOOP_DEPTH {
        r := ScanTo(src, r, '\n');
        SkipCompiled();
        return;
      }
      ghost var base, t, ls := Emitted(), Tabs(), loops;
      ghost var c := ParseCompare(src, r).0;
      ghost var b := ParseBlock(src, PastParen(src, ParseCompare(src, r).1), |ls| + 1).0;
      LoopFits(c, b, code.Length - ip, ls, ip);
      loops := loops + [LoopContext(ip, [], [])];
      var jumpExit := CompileGuard(r);
      r := ScanPastParen(src, p);
      r := CompileBlock(r);
      CloseLoop(jumpExit, c, b, base, t, ls);
    }

    // The jump back, and the patching of everything that leaves the loop or repeats it.
    method CloseLoop(jumpExit: nat, ghost c: Expr, ghost b: Stmt, ghost base: seq<Instruction>,
                     ghost t: Tables, ghost ls: seq<LoopContext>)
      requires HasStmt(b, base + Guard(c, t, 0), InternExpr(t, c), ls + [LoopContext(|base|, [], [])])
      requires jumpExit == |base| + ExprSize(c) && jumpExit + 1 + StmtSize(b) < code.Length
      modifies this`ip, this`loops, code
      ensures HasStmt(While(c, b), base, t, ls)
    {
      hide GenStmt, GenExpr, InternExpr, WithSites, JumpSites, LoopStart, Patch, Kept, Guard, StmtSize, InternStmt,
        JumpCount;
      ghost var start := |base| + ExprSize(c) + 1;
      OwnSites(ls, LoopContext(|base|, [], []), b, start);
      WhileTables(c, b, t);
      LoopSites(ls, c, b, |base|);
      var ctx := loops[|loops| - 1];
      Emit(JMP, ctx.start);
      loops := loops[..|loops| - 1];
      assert loops == ls;
      LoopPatched(c, b, base, LoopStart(ls), t);
      PatchLoop(ctx, jumpExit);
    }

    method PatchLoop(ctx: LoopContext, jumpExit: nat)
      requires ip <= code.Length && jumpExit < ip
      requires forall k :: 0 <= k < |ctx.breakJumps| ==> ctx.breakJumps[k] < ip
      requires forall k :: 0 <= k < |ctx.continueJumps| ==> ctx.continueJumps[k] < ip
      modifies code
      ensures
        var patched := Patch(Patch(old(Emitted()), ctx.breakJumps, ip), ctx.continueJumps, ctx.start);
        Emitted() == patched[jumpExit := patched[jumpExit].(arg := ip)]
    {
      PatchAll(ctx.breakJumps, ip);
      PatchAll(ctx.continueJumps, ctx.start);
      SetArg(jumpExit, ip);
    }

    lemma EmptyCompiled()
      requires Valid() && ip == 0 && loops == [] && Tabs() == NO_TABLES
      ensures HasStmt(Skip, [], NO_TABLES, [])
    {
    }

    lemma WholeProgram(s: Stmt)
      requires HasStmt(s, [], NO_TABLES, [])
      ensures Valid() && ip == StmtSize(s)
      ensures Emitted() + [Instruction(HALT, 0)] == GenProgram(s)
      ensures strings == Kept(InternStmt(NO_TABLES, s).strs, MAX_STRINGS)
    {
      hide GenStmt;
      assert [] + GenStmt(s, 0, 0, 0, NO_TABLES) == GenStmt(s, 0, 0, 0, NO_TABLES);
    }

    lemma SkipCompiled()
      requires Valid()
      ensures HasStmt(Skip, Emitted(), Tabs(), loops)
    {
    }
  }

  // Compiles a whole text into the caller's buffer; pool is the string pool its instructions point into.
  method NawCompile(src: string, out: array<Instruction>) returns (n: nat, pool: seq<string>)
    requires out.Length == MAX_CODE && Stops(src) && CodeFits(Parse(src))
    modifies out
    ensures n <= out.Length && out[..n] == GenProgram(Parse(src))
    ensures pool == Kept(InternStmt(NO_TABLES, Parse(src)).strs, MAX_STRINGS)
  {
    hide ParseStmt, ParseStmts, StmtFits, JumpsFit, GenStmt, InternStmt;
    var c := new Compiler(src, out);
    var line := 0;
    ghost var acc := Skip;
    ghost var room := MAX_CODE - 1;
    c.EmptyCompiled();
    ProgramRoom(Parse(src));
    while At(src, line) != '\0'
      invariant line <= |src| && fresh(c) && c.src == src && c.code == out
      invariant c.HasStmt(acc, [], NO_TABLES, [])
      invariant ParseStmts(src, line, 0, acc) == ParseStmts(src, 0, 0, Skip)
      invariant StmtFits(ParseStmts(src, line, 0, acc).0, MAX_CODE)
      invariant JumpsFit(ParseStmts(src, line, 0, acc).0, [])
      decreases |src| - line
    {
      if At(src, line) == '}' {
        StmtsEnd(src, line, 0, acc);
        assert false;
      }
      ghost var s := ParseStmt(src, line, 0).0;
      c.NextStmtFits(src, line, acc, [], NO_TABLES, [], MAX_CODE);
      line := c.CompileStatement(line);
      c.SeqCompiled(acc, s, [], NO_TABLES, []);
      acc := Seq(acc, s);
      line := ScanSpace(src, line);
    }
    StmtsEnd(src, line, 0, acc);
    c.WholeProgram(acc);
    c.Emit(HALT, 0);
    n, pool := c.ip, c.strings;
  }

  lemma ProgramRoom(s: Stmt)
    requires CodeFits(s)
    ensures StmtFits(s, MAX_CODE) && JumpsFit(s, []) && StmtSize(s) < MAX_CODE
  {
  }

  // ----- when the compiler stops -----

  // One round of the compiler's top loop, from position i.
  function TopRound(src: string, i: nat): (r: nat)
    requires i <= |src|
    ensures r <= |src|
  {
    SkipSpace(src, ParseStmt(src, i, 0).1)
  }

  function TopRounds(src: string, i: nat, n: nat): (r: nat)
    requires i <= |src|
    ensures r <= |src|
    decreases n
  {
    if n == 0 || At(src, i) == '\0' then i else TopRounds(src, TopRound(src, i), n - 1)
  }

  ghost predicate ReachesEnd(src: string, i: nat)
    requires i <= |src|
  {
    exists n: nat :: At(src, TopRounds(src, i, n)) == '\0'
  }

  lemma ReachesNext(src: string, i: nat)
    requires i <= |src| && At(src, i) != '\0'
    ensures ReachesEnd(src, i) <==> ReachesEnd(src, TopRound(src, i))
  {
    hide TopRound;
    var k := TopRound(src, i);
    if ReachesEnd(src, k) {
      var n: nat :| At(src, TopRounds(src, k, n)) == '\0';
      assert TopRounds(src, i, n + 1) == TopRounds(src, k, n);
    }
    if ReachesEnd(src, i) {
      var n: nat :| At(src, TopRounds(src, i, n)) == '\0';
      assert TopRounds(src, i, n) == TopRounds(src, k, n - 1);
    }
  }

  // The top loop reaches the end of the text unless it meets a closing brace outside any block,
  // where it stays for ever.
  lemma {:induction false} TopLoopStops(src: string, i: nat, acc: Stmt)
    requires i <= |src|
    ensures ReachesEnd(src, i) <==> At(src, ParseStmts(src, i, 0, acc).1) == '\0'
    decreases |src| - i
  {
    if At(src, i) == '\0' {
      assert At(src, TopRounds(src, i, 0)) == '\0';
    } else if At(src, i) == '}' {
      forall n: nat ensures TopRounds(src, i, n) == i { StrayBrace(src, i, n); }
    } else {
      hide ReachesEnd, ParseStmt;
      var (s, j) := ParseStmt(src, i, 0);
      TopLoopStops(src, SkipSpace(src, j), Seq(acc, s));
      ReachesNext(src, i);
    }
  }

  // A text without a closing brace is always read to its end.
  lemma NoBraceStops(src: string)
    requires '}' !in src
    ensures Stops(src) && ReachesEnd(src, 0)
  {
    hide ReachesEnd, ParseStmts;
    TopLoopStops(src, 0, Skip);
  }

  lemma {:induction false} StrayBrace(src: string, i: nat, n: nat)
    requires i <= |src| && At(src, i) == '}'
    ensures TopRounds(src, i, n) == i
  {
    if n > 0 { StrayBrace(src, i, n - 1); }
  }

  // The defining equations of the reference reading, one step at a time.
  lemma ParseTermStart(src: string, i: nat)
    requires i <= |src|
    ensures var (f, j) := ParseFactor(src, i); ParseTerm(src, i) == TermRest(src, j, f)
  {
  }

  lemma TermRestStep(src: string, i: nat, acc: Expr)
    requires i <= |src|
    ensures var k := SkipInline(src, i); var c := At(src, k);
      if c == '*' || c == '/' then
        var (f, j) := ParseFactor(src, k + 1);
        TermRest(src, i, acc) == TermRest(src, j, Bin(if c == '*' then Mul else Div, acc, f))
      else TermRest(src, i, acc) == (acc, k)
  {
  }

  lemma ParseExprStart(src: string, i: nat)
    requires i <= |src|
    ensures var (t, j) := ParseTerm(src, i); ParseExpr(src, i) == ExprRest(src, j, t)
  {
  }

  lemma ExprRestStep(src: string, i: nat, acc: Expr)
    requires i <= |src|
    ensures var k := SkipInline(src, i); var c := At(src, k);
      if c == '+' || c == '-' then
        var (f, j) := ParseTerm(src, k + 1);
        ExprRest(src, i, acc) == ExprRest(src, j, Bin(if c == '+' then Add else Sub, acc, f))
      else ExprRest(src, i, acc) == (acc, k)
  {
  }

  lemma ParseCompareStart(src: string, i: nat)
    requires i <= |src|
    ensures var (t, j) := ParseExpr(src, i); ParseCompare(src, i) == CompareRest(src, j, t)
  {
  }

  lemma CompareRestStep(src: string, i: nat, acc: Expr)
    requires i <= |src|
    ensures var k := SkipInline(src, i); var here := CompareOp(src, k);
      if here.Some? then
        var (f, j) := ParseExpr(src, k + here.value.1);
        CompareRest(src, i, acc) == CompareRest(src, j, Bin(here.value.0, acc, f))
      else CompareRest(src, i, acc) == (acc, k)
  {
  }

  lemma KeywordFits(src: string, i: nat, keyword: string)
    requires i <= |src| && MatchKeyword(src, i, keyword)
    ensures i + |keyword| <= |src|
  {
  }

  lemma WithSitesSeq(ls: seq<LoopContext>, s1: Stmt, s2: Stmt, a: nat)
    ensures WithSites(WithSites(ls, s1, a), s2, a + StmtSize(s1)) == WithSites(ls, Seq(s1, s2), a)
    ensures LoopStart(WithSites(ls, s1, a)) == LoopStart(ls)
  {
    hide Record, LoopStart, JumpSites, JumpCount, StmtSize;
    var b := a + StmtSize(s1);
    SeqSites(s1, s2, a, true);
    SeqSites(s1, s2, a, false);
    RecordTwice(ls, JumpSites(s1, a, true), JumpSites(s1, a, false), JumpSites(s2, b, true), JumpSites(s2, b, false));
  }

  lemma SeqAssoc<T>(a: seq<T>, b: seq<T>, c: seq<T>)
    ensures (a + b) + c == a + (b + c)
  {
  }

  // The code of two statements after base, as one.
  lemma SeqCode(s1: Stmt, s2: Stmt, base: seq<Instruction>, cont: int, t: Tables)
    ensures
      var pre := base + GenStmt(s1, |base|, 0, cont, t);
      && pre + GenStmt(s2, |pre|, 0, cont, InternStmt(t, s1)) == base + GenStmt(Seq(s1, s2), |base|, 0, cont, t)
      && |pre| == |base| + StmtSize(s1)
    ensures InternStmt(t, Seq(s1, s2)) == InternStmt(InternStmt(t, s1), s2)
    ensures StmtSize(Seq(s1, s2)) == StmtSize(s1) + StmtSize(s2)
  {
    SeqTables(s1, s2, t);
    hide GenStmt, InternStmt, StmtSize;
    var g1 := GenStmt(s1, |base|, 0, cont, t);
    var n := |base + g1|;
    assert n == |base| + StmtSize(s1);
    GenSeqIs(s1, s2, |base|, 0, cont, t);
    SeqAssoc(base, g1, GenStmt(s2, n, 0, cont, InternStmt(t, s1)));
  }

  lemma StmtsStep(src: string, i: nat, loops: nat, acc: Stmt)
    requires i <= |src| && !AtEnd(At(src, i))
    ensures
      var (s, j) := ParseStmt(src, i, loops);
      && ParseStmts(src, i, loops, acc) == ParseStmts(src, SkipSpace(src, j), loops, Seq(acc, s))
      && SkipSpace(src, j) > i
  {
    hide ParseStmt;
  }

  lemma FitsSeq(s1: Stmt, s2: Stmt, room: int, ls: seq<LoopContext>, a: nat)
    requires StmtFits(Seq(s1, s2), room) && JumpsFit(Seq(s1, s2), ls)
    ensures StmtFits(s1, room) && JumpsFit(s1, ls)
    ensures StmtFits(s2, room - StmtSize(s1)) && JumpsFit(s2, WithSites(ls, s1, a))
  {
    hide WithSites, JumpsFit, StmtFits, StmtSize, JumpSites, JumpCount;
    SeqFits(s1, s2, room);
    SeqJumpsFit(s1, s2, ls, a);
  }

  lemma SeqFits(s1: Stmt, s2: Stmt, room: int)
    requires StmtFits(Seq(s1, s2), room)
    ensures StmtFits(s1, room) && StmtFits(s2, room - StmtSize(s1))
  {
  }

  lemma SeqJumpsFit(s1: Stmt, s2: Stmt, ls: seq<LoopContext>, a: nat)
    requires JumpsFit(Seq(s1, s2), ls)
    ensures JumpsFit(s1, ls) && JumpsFit(s2, WithSites(ls, s1, a))
  {
    hide Record, JumpSites, JumpCount;
    SeqJumps(s1, s2, true);
    SeqJumps(s1, s2, false);
    if ls != [] { RecordTop(ls, JumpSites(s1, a, true), JumpSites(s1, a, false)); }
  }

  lemma SeqJumps(s1: Stmt, s2: Stmt, breaks: bool)
    ensures JumpCount(Seq(s1, s2), breaks) == JumpCount(s1, breaks) + JumpCount(s2, breaks)
  {
  }

  lemma RecordTop(loops: seq<LoopContext>, breaks: seq<nat>, continues: seq<nat>)
    requires loops != []
    ensures
      var top := loops[|loops| - 1];
      Record(loops, breaks, continues)[|loops| - 1]
        == LoopContext(top.start, top.breakJumps + breaks, top.continueJumps + continues)
  {
  }

  lemma {:induction false} StmtsFit(src: string, i: nat, loops: nat, acc: Stmt, room: int, ls: seq<LoopContext>)
    requires i <= |src|
    requires StmtFits(ParseStmts(src, i, loops, acc).0, room) && JumpsFit(ParseStmts(src, i, loops, acc).0, ls)
    ensures StmtFits(acc, room) && JumpsFit(acc, ls)
    decreases |src| - i
  {
    if !AtEnd(At(src, i)) {
      var (s, j) := ParseStmt(src, i, loops);
      StmtsFit(src, SkipSpace(src, j), loops, Seq(acc, s), room, ls);
      FitsSeq(acc, s, room, ls, 0);
    }
  }

  // The parts of a conditional or a loop fit when the whole does.
  lemma GuardedFits(c: Expr, b: Stmt, s: Stmt, room: int, ls: seq<LoopContext>)
    requires s == If(c, b) || (s.IfElse? && s.cond == c && s.thn == b)
    requires StmtFits(s, room) && JumpsFit(s, ls)
    ensures ExprFits(c, room - 1)
    ensures StmtFits(b, room - ExprSize(c) - 1) && JumpsFit(b, ls)
  {
  }

  lemma LoopSites(ls: seq<LoopContext>, c: Expr, b: Stmt, a: nat)
    ensures WithSites(ls, While(c, b), a) == ls
  {
  }

  lemma ElseFits(c: Expr, b: Stmt, f: Stmt, room: int, ls: seq<LoopContext>, start: nat)
    requires StmtFits(IfElse(c, b, f), room) && JumpsFit(IfElse(c, b, f), ls)
    ensures ExprSize(c) + 1 + StmtSize(b) < room
    ensures StmtFits(f, room - ExprSize(c) - 1 - StmtSize(b) - 1) && JumpsFit(f, WithSites(ls, b, start))
  {
  }

  lemma GuardRetarget(base: seq<Instruction>, c: Expr, t: Tables, g: seq<Instruction>, target: int)
    ensures var at := |base| + ExprSize(c);
      (base + Guard(c, t, 0) + g)[at := (base + Guard(c, t, 0) + g)[at].(arg := target)]
      == base + Guard(c, t, target) + g
  {
    hide GenExpr;
  }

  lemma WithSitesSame(ls: seq<LoopContext>, b: Stmt, s: Stmt, start: nat, a: nat)
    requires forall breaks :: JumpSites(b, start, breaks) == JumpSites(s, a, breaks)
    ensures WithSites(ls, b, start) == WithSites(ls, s, a)
  {
  }

  lemma WithSitesIfElse(ls: seq<LoopContext>, c: Expr, b: Stmt, f: Stmt, a: nat)
    ensures var start := a + ExprSize(c) + 1;
      WithSites(WithSites(ls, b, start), f, start + StmtSize(b) + 1) == WithSites(ls, IfElse(c, b, f), a)
    ensures LoopStart(WithSites(ls, b, a + ExprSize(c) + 1)) == LoopStart(ls)
  {
    hide Record, LoopStart, JumpSites, JumpCount, StmtSize;
    var start := a + ExprSize(c) + 1;
    var other := start + StmtSize(b) + 1;
    IfElseSites(c, b, f, a, true);
    IfElseSites(c, b, f, a, false);
    RecordTwice(ls, JumpSites(b, start, true), JumpSites(b, start, false),
                JumpSites(f, other, true), JumpSites(f, other, false));
  }

  // The code before an else branch, up to its jump.
  function ThenPart(c: Expr, b: Stmt, base: seq<Instruction>, t: Tables, ls: seq<LoopContext>): (r: seq<Instruction>)
    ensures |r| == |base| + ExprSize(c) + 1 + StmtSize(b)
  {
    var start := |base| + ExprSize(c) + 1;
    base + Guard(c, t, start + StmtSize(b) + 1) + GenStmt(b, start, 0, LoopStart(ls), InternExpr(t, c))
  }

  lemma GenIfElse(c: Expr, b: Stmt, f: Stmt, base: seq<Instruction>, ls: seq<LoopContext>, t: Tables)
    ensures
      var at := |base| + ExprSize(c) + 1 + StmtSize(b);
      var g := GenStmt(f, at + 1, 0, LoopStart(ls), InternStmt(InternExpr(t, c), b));
      var code := ThenPart(c, b, base, t, ls) + [Instruction(JMP, 0)] + g;
      code[at := code[at].(arg := |code|)] == base + GenStmt(IfElse(c, b, f), |base|, 0, LoopStart(ls), t)
  {
    hide GenStmt, GenExpr, InternExpr, InternStmt, LoopStart, Guard, StmtSize, ExprSize;
    var start := |base| + ExprSize(c) + 1;
    var at := start + StmtSize(b);
    var g := GenStmt(f, at + 1, 0, LoopStart(ls), InternStmt(InternExpr(t, c), b));
    var code := ThenPart(c, b, base, t, ls) + [Instruction(JMP, 0)] + g;
    var jump := [Instruction(JMP, |code|)];
    GenIfElseIs(c, b, f, |base|, 0, LoopStart(ls), t);
    var p := ThenPart(c, b, base, t, ls);
    UpdateMiddle(p, Instruction(JMP, 0), g, Instruction(JMP, |code|));
    var h := GenStmt(b, start, 0, LoopStart(ls), InternExpr(t, c));
    var guard := Guard(c, t, at + 1);
    SeqAssoc(base, guard, h);
    SeqAssoc(base, guard + h, jump);
    SeqAssoc(base, guard + h + jump, g);
  }

  lemma UpdateMiddle<T>(p: seq<T>, x: T, g: seq<T>, y: T)
    ensures (p + [x] + g)[|p| := y] == p + [y] + g
  {
  }

  lemma GenIf(c: Expr, b: Stmt, base: seq<Instruction>, cont: int, t: Tables)
    ensures
      var start := |base| + ExprSize(c) + 1;
      base + GenStmt(If(c, b), |base|, 0, cont, t)
      == base + Guard(c, t, start + StmtSize(b)) + GenStmt(b, start, 0, cont, InternExpr(t, c))
  {
    hide GenStmt, Guard, InternExpr;
    GenIfIs(c, b, |base|, 0, cont, t);
    var start := |base| + ExprSize(c) + 1;
    SeqAssoc(base, Guard(c, t, start + StmtSize(b)), GenStmt(b, start, 0, cont, InternExpr(t, c)));
  }

  lemma LoopFits(c: Expr, b: Stmt, room: int, ls: seq<LoopContext>, start: nat)
    requires StmtFits(While(c, b), room)
    ensures ExprFits(c, room - 1) && ExprSize(c) + 1 + StmtSize(b) < room
    ensures StmtFits(b, room - ExprSize(c) - 1)
    ensures JumpsFit(b, ls + [LoopContext(start, [], [])])
  {
  }

  // A fresh loop context collects exactly the sites of the loop's body.
  lemma OwnSites(ls: seq<LoopContext>, ctx: LoopContext, b: Stmt, a: nat)
    requires ctx.breakJumps == ctx.continueJumps == []
    ensures WithSites(ls + [ctx], b, a)
         == ls + [LoopContext(ctx.start, JumpSites(b, a, true), JumpSites(b, a, false))]
    ensures LoopStart(ls + [ctx]) == ctx.start
  {
    assert [] + JumpSites(b, a, true) == JumpSites(b, a, true);
    assert [] + JumpSites(b, a, false) == JumpSites(b, a, false);
  }

  lemma JumpSitesRange(b: Stmt, start: nat)
    ensures forall breaks, k :: 0 <= k < |JumpSites(b, start, breaks)| ==>
      JumpSites(b, start, breaks)[k] < start + StmtSize(b)
  {
    SitesRetarget(b, start, Exits(0, 0), Exits(0, 0), NO_TABLES, true, 0);
    SitesRetarget(b, start, Exits(0, 0), Exits(0, 0), NO_TABLES, false, 0);
  }

  // After the patching of a loop no placeholder is left in it: every break of its own goes to the
  // first instruction after it, every continue to its condition, and its guard past its end.
  lemma LoopPatched(c: Expr, b: Stmt, base: seq<Instruction>, cont: int, t: Tables)
    ensures
      var a := |base|;
      var start := a + ExprSize(c) + 1;
      var end := start + StmtSize(b) + 1;
      var raw := base + Guard(c, t, 0) + GenStmt(b, start, 0, a, InternExpr(t, c)) + [Instruction(JMP, a)];
      && (forall k :: 0 <= k < JumpCount(b, true) ==> JumpSites(b, start, true)[k] < |raw|)
      && (forall k :: 0 <= k < JumpCount(b, false) ==> JumpSites(b, start, false)[k] < |raw|)
      && var patched := Patch(Patch(raw, JumpSites(b, start, true), end), JumpSites(b, start, false), a);
      patched[start - 1 := patched[start - 1].(arg := end)] == base + GenStmt(While(c, b), a, 0, cont, t)
  {
    hide GenStmt, GenExpr, InternExpr, JumpSites, Patch;
    JumpSitesRange(b, |base| + ExprSize(c) + 1);
    var a := |base|;
    var start := a + ExprSize(c) + 1;
    var end := start + StmtSize(b) + 1;
    var pre, post := base + Guard(c, t, 0), [Instruction(JMP, a)];
    PatchRetargets(pre, b, Exits(0, a), InternExpr(t, c), post, true, end);
    PatchRetargets(pre, b, Exits(end, a), InternExpr(t, c), post, false, a);
    var g := GenStmt(b, start, end, a, InternExpr(t, c));
    SeqAssoc(pre, g, post);
    GuardRetarget(base, c, t, g + post, end);
    GenWhile(c, b, base, cont, t);
    SeqAssoc(base + Guard(c, t, end), g, post);
  }

  lemma GenWhile(c: Expr, b: Stmt, base: seq<Instruction>, cont: int, t: Tables)
    ensures
      var a := |base|;
      var start := a + ExprSize(c) + 1;
      var end := start + StmtSize(b) + 1;
      base + GenStmt(While(c, b), a, 0, cont, t)
      == base + Guard(c, t, end) + GenStmt(b, start, end, a, InternExpr(t, c)) + [Instruction(JMP, a)]
  {
    hide GenStmt, Guard, InternExpr;
    GenWhileIs(c, b, |base|, 0, cont, t);
    var a := |base|;
    var start := a + ExprSize(c) + 1;
    var end := start + StmtSize(b) + 1;
    var g, post := GenStmt(b, start, end, a, InternExpr(t, c)), [Instruction(JMP, a)];
    SeqAssoc(base, Guard(c, t, end), g);
    SeqAssoc(base, Guard(c, t, end) + g, post);
  }

  lemma StmtsEnd(src: string, i: nat, loops: nat, acc: Stmt)
    requires i <= |src| && AtEnd(At(src, i))
    ensures ParseStmts(src, i, loops, acc) == (acc, i)
  {
  }

  // When an operation fits, so do its operands, one after the other.
  lemma FitsBin(op: BinOp, l: Expr, r: Expr, room: int)
    requires ExprFits(Bin(op, l, r), room)
    ensures ExprFits(l, room)
    ensures ExprFits(r, room - ExprSize(l))
  {
  }

  lemma {:induction false} TermRestFits(src: string, i: nat, acc: Expr, room: int)
    requires i <= |src| && ExprFits(TermRest(src, i, acc).0, room)
    ensures ExprFits(acc, room)
    decreases |src| - i
  {
    hide ParseFactor, ParseTerm, ParseExpr;
    var k := SkipInline(src, i);
    if At(src, k) == '*' || At(src, k) == '/' {
      var (f, j) := ParseFactor(src, k + 1);
      var op := if At(src, k) == '*' then Mul else Div;
      TermRestFits(src, j, Bin(op, acc, f), room);
      FitsBin(op, acc, f, room);
    }
  }

  lemma {:induction false} ExprRestFits(src: string, i: nat, acc: Expr, room: int)
    requires i <= |src| && ExprFits(ExprRest(src, i, acc).0, room)
    ensures ExprFits(acc, room)
    decreases |src| - i
  {
    hide ParseFactor, ParseTerm, ParseExpr;
    var k := SkipInline(src, i);
    if At(src, k) == '+' || At(src, k) == '-' {
      var (f, j) := ParseTerm(src, k + 1);
      var op := if At(src, k) == '+' then Add else Sub;
      ExprRestFits(src, j, Bin(op, acc, f), room);
      FitsBin(op, acc, f, room);
    }
  }

  lemma {:induction false} CompareRestFits(src: string, i: nat, acc: Expr, room: int)
    requires i <= |src| && ExprFits(CompareRest(src, i, acc).0, room)
    ensures ExprFits(acc, room)
    decreases |src| - i
  {
    hide ParseFactor, ParseTerm, ParseExpr;
    var k := SkipInline(src, i);
    var here := CompareOp(src, k);
    if here.Some? {
      var (op, len) := here.value;
      var (f, j) := ParseExpr(src, k + len);
      CompareRestFits(src, j, Bin(op, acc, f), room);
      FitsBin(op, acc, f, room);
    }
  }

  lemma {:induction false} IndexOfFirst(t: seq<string>, x: string, k: nat)
    requires k < |t| && t[k] == x && x !in t[..k]
    ensures IndexOf(t, x) == k
  {
    if k > 0 {
      assert t[0] in t[..k];
      assert t[1..][..k - 1] == t[..k][1..];
      IndexOfFirst(t[1..], x, k - 1);
    }
  }

  // A name found in the kept part of a table has that slot.
  lemma SlotFound(all: seq<string>, x: string, k: nat, n: nat)
    requires k < |Kept(all, n)| && Kept(all, n)[k] == x && x !in Kept(all, n)[..k]
    ensures Intern(all, x) == all && Slot(all, x, n) == k
  {
    assert all[..k] == Kept(all, n)[..k];
    IndexOfFirst(all, x, k);
  }

  // A name that is not found gets the next slot, or the last one when there is none left.
  lemma SlotMissing(all: seq<string>, x: string, n: nat)
    requires x !in Kept(all, n) && n > 0
    ensures
      var r := Intern(all, x);
      if |Kept(all, n)| < n then r == Kept(all, n) + [x] == Kept(r, n) && Slot(r, x, n) == |Kept(all, n)|
      else Kept(r, n) == Kept(all, n) && Slot(r, x, n) == n - 1
  {
    var r := Intern(all, x);
    if |all| < n {
      assert r[..|all|] == all;
      IndexOfFirst(r, x, |all|);
    } else {
      assert r[..n] == all[..n];
      IndexPast(r, x, n);
    }
  }

  lemma {:induction false} IndexPast(t: seq<string>, x: string, n: nat)
    requires n <= |t| && x !in t[..n]
    ensures IndexOf(t, x) >= n
  {
    if n > 0 {
      assert t[0] in t[..n];
      assert t[1..][..n - 1] == t[..n][1..];
      IndexPast(t[1..], x, n - 1);
    }
  }
}
