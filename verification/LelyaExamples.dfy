// A program whose native call passes one argument too many.
module LelyaExamples {
  import opened NawBase
  import opened LelyaSyntax
  import opened LelyaGrammar
  import opened LelyaCode
  import opened LelyaVm
  import opened LelyaSemantics
  import opened LelyaCorrectness
  import opened LelyaPrinter

  const MATH_SIN := 7
  const ONE_TWO: seq<string> := ["1", "2"]
  const PROGRAM := Seq(Skip, Print(Native(MATH_SIN, ONE_TWO)))
  const TEXT := "print math_sin(1,2)\n"

  lemma ProgramPrints()
    ensures PrintableBlock(PROGRAM, 0, PLAIN) && BlockText(PROGRAM, 0, PLAIN) == TEXT
  {
    hide ExprText, PrintableStmt, StmtText;
    StatementPrints();
    assert BlockText(PROGRAM, 0, PLAIN) == "" + TEXT;
  }

  lemma StatementPrints()
    ensures PrintableStmt(PROGRAM.second, 0, PLAIN) && StmtText(PROGRAM.second, 0, PLAIN) == TEXT
  {
    hide ExprText, Printable;
    CallPrints();
    OneLine();
    WholeLine();
  }

  lemma OneLine()
    ensures '\n' !in "math_sin(1,2)" && '\0' !in "math_sin(1,2)"
  {
  }

  lemma WholeLine()
    ensures "print" + (" " + "math_sin(1,2)" + "\n") == TEXT
  {
  }

  lemma CallPrints()
    ensures Printable(Native(MATH_SIN, ONE_TWO), 0) && ExprText(Native(MATH_SIN, ONE_TWO), 0, "") == "math_sin(1,2)"
  {
    hide IsArg, ArgsText;
    ArgumentsFit();
    ArgumentsPrint();
    assert "math_sin" + "(" + "1,2)" == "math_sin(1,2)";
  }

  lemma ArgumentsPrint()
    ensures ArgsText(ONE_TWO) == "1,2)"
  {
    assert ArgsText(ONE_TWO) == "1" + "," + ArgsText(["2"]) == "1,2)";
  }

  lemma ArgumentsFit()
    ensures forall a :: a in ONE_TWO ==> IsArg(a)
  {
    assert Closed("1", 0, false) && Closed("2", 0, false);
  }

  lemma ProgramCode()
    ensures FinalTables(PROGRAM).strs == ONE_TWO
    ensures GenProgram(PROGRAM) ==
      [Instruction(PUSH_STR, 0), Instruction(PUSH_STR, 1), Instruction(NATIVE_CALL, MATH_SIN),
       Instruction(PRINT, 0), Instruction(HALT, 0)]
  {
    var one, t := ["1"], NO_TABLES;
    assert ONE_TWO[..1] == one && one[..0] == [];
    assert InternAll([], one) == one && InternAll([], ONE_TWO) == ONE_TWO;
    assert IndexOf(one, "1") == 0 && IndexOf(ONE_TWO[1..], "2") == 0 && IndexOf(ONE_TWO, "2") == 1;
    assert PushArgs(one, []) == [Instruction(PUSH_STR, 0)];
    assert PushArgs(ONE_TWO, []) == [Instruction(PUSH_STR, 0), Instruction(PUSH_STR, 1)];
  }

  // The call of math_sin with two arguments takes the last one only: the first stays on the stack to the end.
  lemma ArgumentLeftOver(w: World)
    ensures Parse(TEXT) == PROGRAM && Stops(TEXT)
    ensures
      var st := Steps(Load(PROGRAM, w), START, 5);
      && st.status == Halted && st.stack == [StrV("1")]
      && st.trace == [OutStr(w.native(MATH_SIN, ["2"]))]
  {
    hide Steps, BlockText, PrintableBlock, ParseStmts, Execute, GenProgram;
    ProgramPrints();
    RoundTrip(PROGRAM, PLAIN);
    ProgramCode();
    var m, v := Load(PROGRAM, w), w.native(MATH_SIN, ["2"]);
    PushStep(m, START, 0);
    var st1 := Steps(m, START, 1);
    PushStep(m, st1, 1);
    var st2 := Steps(m, st1, 1);
    CallStep(m, st2, "1", "2");
    var st3 := Steps(m, st2, 1);
    LastSteps(m, st3, "1", v);
    StepsAdd(m, START, 1, 1);
    StepsAdd(m, START, 2, 1);
    StepsAdd(m, START, 3, 2);
  }

  lemma CallStep(m: Machine, st: State, a: string, b: string)
    requires st.status == Running && 0 <= st.ip < |m.code| && m.code[st.ip] == Instruction(NATIVE_CALL, MATH_SIN)
    requires st.stack == [StrV(a), StrV(b)]
    ensures Steps(m, st, 1) == st.(ip := st.ip + 1, stack := [StrV(a), StrV(m.native(MATH_SIN, [b]))])
  {
    hide Steps;
    OneStep(m, st);
    assert st.stack[..1] == [StrV(a)];
    var at := st.(ip := st.ip + 1);
    assert [b] + [] == [b];
    assert PopStrings(at, 1, []) == (at.(stack := [StrV(a)]), Some([b]));
  }

  lemma LastSteps(m: Machine, st: State, a: string, v: string)
    requires st.status == Running && 0 <= st.ip && st.ip + 1 < |m.code|
    requires m.code[st.ip] == Instruction(PRINT, 0) && m.code[st.ip + 1] == Instruction(HALT, 0)
    requires st.stack == [StrV(a), StrV(v)]
    ensures Steps(m, st, 2)
      == st.(ip := st.ip + 2, stack := [StrV(a)], trace := st.trace + [OutStr(v)], status := Halted)
  {
    hide Steps;
    OneStep(m, st);
    assert st.stack[..1] == [StrV(a)];
    OneStep(m, Steps(m, st, 1));
    StepsAdd(m, st, 1, 1);
  }
}
