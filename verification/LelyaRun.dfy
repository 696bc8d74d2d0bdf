// From text to run: compiling a text and executing the result.
module LelyaRun {
  import opened LelyaSyntax
  import opened LelyaGrammar
  import opened LelyaCode
  import opened LelyaCompiler
  import opened LelyaVm
  import opened LelyaSemantics
  import opened LelyaCorrectness
  import opened LelyaSafety
  import opened LelyaShared
  import LelyaPrinter

  // Outside a loop no text is read as a break or continue.
  lemma {:induction false} StmtsJumpFree(src: string, i: nat, acc: Stmt)
    requires i <= |src| && JumpFree(acc)
    ensures JumpFree(ParseStmts(src, i, 0, acc).0)
    decreases |src| - i, 3
  {
    if !AtEnd(At(src, i)) {
      StmtJumpFree(src, i);
      var (s, j) := ParseStmt(src, i, 0);
      StmtsJumpFree(src, SkipSpace(src, j), Seq(acc, s));
    }
  }

  lemma {:induction false} StmtJumpFree(src: string, i: nat)
    requires i <= |src|
    ensures JumpFree(ParseStmt(src, i, 0).0)
    decreases |src| - SkipSpace(src, i), 2
  {
    hide MatchKeyword;
    var k := SkipSpace(src, i);
    if !AtEnd(At(src, k)) && MatchKeyword(src, k, "if") {
      KeywordFits(src, k, "if");
      IfJumpFree(src, k + 2);
    }
  }

  lemma {:induction false} IfJumpFree(src: string, i: nat)
    requires i <= |src|
    ensures JumpFree(ParseIf(src, i, 0).0)
    decreases |src| - i, 1
  {
    hide MatchKeyword, ParseCompare, ParseBlock, PastParen;
    var open := SkipInline(src, i);
    if At(src, open) == '(' {
      var j := PastParen(src, open + 1);
      BlockJumpFree(src, j);
      var k := SkipSpace(src, ParseBlock(src, j, 0).1);
      if MatchKeyword(src, k, "else") {
        KeywordFits(src, k, "else");
        BlockJumpFree(src, k + 4);
      }
    }
  }

  lemma {:induction false} BlockJumpFree(src: string, i: nat)
    requires i <= |src|
    ensures JumpFree(ParseBlock(src, i, 0).0)
    decreases |src| - i, 4
  {
    var k := SkipSpace(src, i);
    if At(src, k) == '{' { StmtsJumpFree(src, k + 1, Skip); }
  }

  // What a text must satisfy to be compiled and run as it reads: it has no closing brace outside a block, its
  // code fits the compiler's arrays, its native calls have the arity of the machine's, and its expressions fit
  // the machine's stack.
  predicate Acceptable(src: string) {
    Stops(src) && CodeFits(Parse(src)) && Runnable(Parse(src))
  }

  lemma AcceptableAccepted(src: string, w: World)
    requires Acceptable(src)
    ensures Accepted(Meant(Parse(src))) && Compiled(Parse(src), w) == Load(Meant(Parse(src)), w)
    ensures ProgramFits(Parse(src)) ==> Meant(Parse(src)) == Parse(src)
  {
    StmtsJumpFree(src, 0, Skip);
    hide ParseStmts, CodeFits, Runnable, Accepted, Compiled, Load, Shared, JumpFree, InternStmt;
    SharedSlots(Parse(src), w);
    if ProgramFits(Parse(src)) { SharedAlone(Parse(src), FinalTables(Parse(src))); }
  }

  // Every program that can be written down and run, and whose code fits, is compiled from its printed text as it
  // was written, so its runs are the ones the interpreter gives it.
  lemma PrintedProgramRuns(prog: Stmt, style: LelyaPrinter.Style, w: World, fuel: nat) returns (n: nat)
    requires LelyaPrinter.AllInline(style.gap) && LelyaPrinter.PrintableBlock(prog, 0, style)
    requires CodeFits(prog) && Runnable(prog)
    ensures
      var src := LelyaPrinter.BlockText(prog, 0, style);
      && Acceptable(src) && Parse(src) == prog
      && Same(Meant(prog), Steps(Compiled(Parse(src), w), START, n), Run(Meant(prog), EMPTY, w, fuel))
  {
    hide Steps, Run, ParseStmts, Same, Meant, Compiled, Load, Accepted;
    LelyaPrinter.RoundTrip(prog, style);
    AcceptableAccepted(LelyaPrinter.BlockText(prog, 0, style), w);
    n := Preservation(Meant(prog), w, fuel);
  }

  // A run of prog seen after at most `limit` instructions: whatever has been output or read by then is what
  // the program outputs and reads; a run that has ended has ended as the program does.
  lemma AcceptedRuns(prog: Stmt, w: World, limit: nat, status: Status, trace: seq<Event>)
    requires Accepted(prog)
    requires var st := Steps(Load(prog, w), START, limit); status == st.status && trace == st.trace
    ensures exists fuel: nat :: trace <= Run(prog, EMPTY, w, fuel).mem.trace
    ensures status == Halted ==>
      exists fuel: nat :: Run(prog, EMPTY, w, fuel).Normal? && trace == Run(prog, EMPTY, w, fuel).mem.trace
    ensures status == Failed ==>
      exists fuel: nat :: Run(prog, EMPTY, w, fuel).Stopped? && trace == Run(prog, EMPTY, w, fuel).mem.trace
    ensures status == Running ==> Run(prog, EMPTY, w, limit).Timeout? || exists n: nat ::
      n > limit && Steps(Load(prog, w), START, n).status != Running
  {
    hide Steps, Run, GenProgram, InternStmt;
    var m := Load(prog, w);
    var fuel := EveryStateSafe(prog, w, limit);
    if status != Running {
      fuel := EndAgrees(prog, w, limit);
    } else if !Run(prog, EMPTY, w, limit).Timeout? {
      var n := Preservation(prog, w, limit);
      if n <= limit { StepsMonotone(m, START, n, limit); }
      assert n > limit && Steps(m, START, n).status != Running;
    }
  }

  // Compiles a text and runs the code for at most `limit` instructions, inside the machine's arrays whatever
  // the text says; a text that is acceptable runs as the program it stands for.
  method NawlangRun(src: string, w: World, limit: nat) returns (status: Status, trace: seq<Event>)
    requires Stops(src) && CodeFits(Parse(src))
    ensures status != Crashed
    ensures
      var st := Steps(Compiled(Parse(src), w), START, limit);
      status == st.status && trace == st.trace
    ensures Acceptable(src) ==> exists fuel: nat :: trace <= Run(Meant(Parse(src)), EMPTY, w, fuel).mem.trace
    ensures Acceptable(src) && status == Halted ==> exists fuel: nat ::
      Run(Meant(Parse(src)), EMPTY, w, fuel).Normal? && trace == Run(Meant(Parse(src)), EMPTY, w, fuel).mem.trace
    ensures Acceptable(src) && status == Failed ==> exists fuel: nat ::
      Run(Meant(Parse(src)), EMPTY, w, fuel).Stopped? && trace == Run(Meant(Parse(src)), EMPTY, w, fuel).mem.trace
    ensures Acceptable(src) && status == Running ==>
      Run(Meant(Parse(src)), EMPTY, w, limit).Timeout? || exists n: nat ::
        n > limit && Steps(Compiled(Parse(src), w), START, n).status != Running
  {
    hide Steps, Run, GenProgram, InternStmt, Parse, Meant;
    var out := new Instruction[MAX_CODE](_ => Instruction(HALT, 0));
    var size, pool := NawCompile(src, out);
    var m := Machine(out[..size], pool, w.native, w.input);
    assert m == Compiled(Parse(src), w);
    NeverCrashes(Parse(src), w, limit);
    var vm := new Vm();
    vm.Run(m, limit);
    status, trace := vm.status, vm.trace;
    assert vm.Abs() == Steps(m, START, limit);
    if Acceptable(src) {
      AcceptableAccepted(src, w);
      AcceptedRuns(Meant(Parse(src)), w, limit, status, trace);
    }
  }
}
