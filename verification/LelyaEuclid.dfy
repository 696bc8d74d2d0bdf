// A program followed from its text to its output for every input: the greatest common divisor by subtraction.
module LelyaEuclid {
  import opened LelyaSyntax
  import opened LelyaGrammar
  import opened LelyaCode
  import opened LelyaPrinter
  import opened LelyaSemantics
  import LelyaVm
  import LelyaSafety
  import LelyaShared
  import LelyaRun

  const A := Var("a")
  const B := Var("b")
  const LESS := Assign("b", Bin(Sub, B, A))
  const MORE := Assign("a", Bin(Sub, A, B))
  const STEP := IfElse(Bin(Lt, A, B), Seq(Skip, LESS), Seq(Skip, MORE))
  const LOOP := While(Bin(Ne, A, B), Seq(Skip, STEP))
  const KEEP := Assign("g", A)
  const SHOW := Print(Var("g"))
  const EUCLID := Seq(Seq(Seq(Seq(Seq(Skip, Read("a")), Read("b")), LOOP), KEEP), SHOW)

  const STEP_TEXT := "if (" + "a < b" + ") {" + "b = b - a\n" + "} else {" + "a = a - b\n" + "}\n"
  const LOOP_TEXT := "while (" + "a != b" + ") {" + STEP_TEXT + "}\n"
  const WHOLE := "read a\n" + "read b\n" + LOOP_TEXT + "int g = a\n" + "print g\n"

  // One space around operators, and g declared.
  const SPACED: Style := Style(" ", (x, e) => if x == "g" then Declared else Bare)

  // ----- the text -----

  lemma OneName(x: string, level: nat)
    requires x == "a" || x == "b" || x == "g"
    ensures Printable(Var(x), level) && ExprText(Var(x), level, " ") == x && PrintableLine(Var(x), " ")
    ensures IsName(x) && x !in KEYWORDS
  {
  }

  lemma Operation(op: BinOp, x: string, y: string)
    requires x in {"a", "b"} && y in {"a", "b"}
    ensures Printable(Bin(op, Var(x), Var(y)), 0)
    ensures ExprText(Bin(op, Var(x), Var(y)), 0, " ") == x + " " + OpText(op) + " " + y
  {
    OneName(x, Level(op));
    OneName(y, Level(op) + 1);
  }

  lemma OneLine(op: BinOp, x: string, y: string)
    requires x in {"a", "b"} && y in {"a", "b"}
    ensures PrintableLine(Bin(op, Var(x), Var(y)), " ") && ')' !in ExprText(Bin(op, Var(x), Var(y)), 0, " ")
  {
    Operation(op, x, y);
    hide ExprText, Printable;
    var t := OpText(op);
    assert '\n' !in t && '\0' !in t && ')' !in t;
  }

  // The text of x = y - z.
  function Less(x: string, y: string, z: string): string {
    x + (" " + "=" + " " + (y + " " + "-" + " " + z) + "\n")
  }

  lemma AssignPrints(x: string, y: string, z: string)
    requires x in {"a", "b"} && y in {"a", "b"} && z in {"a", "b"}
    ensures
      var s := Seq(Skip, Assign(x, Bin(Sub, Var(y), Var(z))));
      PrintableBlock(s, 1, SPACED) && BlockText(s, 1, SPACED) == Less(x, y, z)
  {
    OneName(x, 0);
    OneLine(Sub, y, z);
    Operation(Sub, y, z);
    hide ExprText, Printable, KEYWORDS, BlockText, PrintableBlock;
    var e := Bin(Sub, Var(y), Var(z));
    assert PrintableStmt(Assign(x, e), 1, SPACED);
    OneStatement(Assign(x, e), 1);
    assert OpText(Sub) == "-" && RightText(e, " ") == " " + "=" + " " + ExprText(e, 0, " ") + "\n";
    assert StmtText(Assign(x, e), 1, SPACED) == x + RightText(e, " ") == Less(x, y, z);
  }

  lemma TwoLines()
    ensures Less("b", "b", "a") == "b = b - a\n" && Less("a", "a", "b") == "a = a - b\n"
  {
    LessReads("b", "b", "a", "b = b - a\n");
    LessReads("a", "a", "b", "a = a - b\n");
  }

  lemma LessReads(x: string, y: string, z: string, line: string)
    requires |x| == 1 && |y| == 1 && |z| == 1 && |line| == 10 && line[..1] == x && line[4..5] == y && line[8..9] == z
    requires line[1] == ' ' && line[2] == '=' && line[3] == ' '
    requires line[5] == ' ' && line[6] == '-' && line[7] == ' ' && line[9] == '\n'
    ensures Less(x, y, z) == line
  {
    assert line[0] == line[..1][0] && line[4] == line[4..5][0] && line[8] == line[8..9][0];
  }

  lemma OneStatement(s: Stmt, loops: nat)
    requires PrintableStmt(s, loops, SPACED)
    ensures PrintableBlock(Seq(Skip, s), loops, SPACED)
    ensures BlockText(Seq(Skip, s), loops, SPACED) == StmtText(s, loops, SPACED)
  {
    hide StmtText, PrintableStmt;
    assert BlockText(Skip, loops, SPACED) == "";
  }

  lemma Conditions()
    ensures ExprText(Bin(Lt, A, B), 0, " ") == "a < b" && ExprText(Bin(Ne, A, B), 0, " ") == "a != b"
  {
    Operation(Lt, "a", "b");
    Operation(Ne, "a", "b");
    hide ExprText;
    assert "a" + " " + "<" + " " + "b" == "a < b";
    assert "a" + " " + "!=" + " " + "b" == "a != b";
  }

  // How the texts of compound statements lie together.
  lemma Lies(t: string, bt: string, ft: string)
    ensures "while" + Compound(t, bt, "}\n") == "while (" + t + ") {" + bt + "}\n"
    ensures "if" + (Compound(t, bt, "} else {") + ft + "}\n") == "if (" + t + ") {" + bt + "} else {" + ft + "}\n"
  {
    LiesOpen("while", t, bt + "}\n");
    LiesOpen("if", t, bt + "} else {" + ft + "}\n");
    var head := " (" + t + ") {";
    assert "while" + Compound(t, bt, "}\n") == "while" + (head + (bt + "}\n"));
    assert Compound(t, bt, "} else {") + ft + "}\n" == head + (bt + "} else {" + ft + "}\n");
    assert "while (" + t + ") {" + (bt + "}\n") == "while (" + t + ") {" + bt + "}\n";
  }

  lemma LiesOpen(word: string, t: string, rest: string)
    ensures word + (" (" + t + ") {" + rest) == (word + " (") + t + ") {" + rest
  {
  }

  lemma StepPrints()
    ensures PrintableBlock(LOOP.body, 1, SPACED) && BlockText(LOOP.body, 1, SPACED) == STEP_TEXT
  {
    AssignPrints("b", "b", "a");
    AssignPrints("a", "a", "b");
    TwoLines();
    OneLine(Lt, "a", "b");
    Conditions();
    hide ExprText, Printable, BlockText, PrintableBlock, Less, Compound, PrintableLine, SPACED;
    var t, bt, ft := ExprText(STEP.cond, 0, " "), BlockText(STEP.thn, 1, SPACED), BlockText(STEP.els, 1, SPACED);
    assert PrintableStmt(STEP, 1, SPACED);
    assert StmtText(STEP, 1, SPACED) == "if" + (Compound(t, bt, "} else {") + ft + "}\n");
    Lies(t, bt, ft);
    OneStatement(STEP, 1);
  }

  lemma WhilePrints(c: Expr, b: Stmt, t: string)
    requires PrintableLine(c, " ") && ExprText(c, 0, " ") == t && PrintableBlock(b, 1, SPACED)
    ensures PrintableStmt(While(c, b), 0, SPACED)
    ensures StmtText(While(c, b), 0, SPACED) == "while (" + t + ") {" + BlockText(b, 1, SPACED) + "}\n"
  {
    hide ExprText, Printable, BlockText, PrintableBlock, Compound;
    Lies(t, BlockText(b, 1, SPACED), "");
  }

  lemma LoopPrints()
    ensures PrintableStmt(LOOP, 0, SPACED) && StmtText(LOOP, 0, SPACED) == LOOP_TEXT
  {
    StepPrints();
    OneLine(Ne, "a", "b");
    Conditions();
    hide ExprText, Printable, BlockText, PrintableBlock, StmtText, PrintableStmt, PrintableLine, SPACED, STEP_TEXT,
      STEP;
    WhilePrints(LOOP.cond, LOOP.body, "a != b");
  }

  lemma ReadPrints(x: string)
    requires x in {"a", "b"}
    ensures PrintableStmt(Read(x), 0, SPACED) && StmtText(Read(x), 0, SPACED) == "read" + (" " + x + "\n")
  {
    OneName(x, 0);
  }

  lemma LastPrint()
    ensures PrintableStmt(KEEP, 0, SPACED)
    ensures StmtText(KEEP, 0, SPACED) == "int" + (" " + "g" + (" " + "=" + " " + "a" + "\n"))
    ensures PrintableStmt(SHOW, 0, SPACED) && StmtText(SHOW, 0, SPACED) == "print" + (" " + "g" + "\n")
  {
    OneName("g", 0);
    OneName("a", 0);
    hide ExprText, Printable, PrintableLine;
    assert RightText(A, " ") == " " + "=" + " " + ExprText(A, 0, " ") + "\n";
  }

  lemma Lines()
    ensures "read" + (" " + "a" + "\n") == "read a\n" && "read" + (" " + "b" + "\n") == "read b\n"
    ensures "int" + (" " + "g" + (" " + "=" + " " + "a" + "\n")) == "int g = a\n"
    ensures "print" + (" " + "g" + "\n") == "print g\n"
  {
  }

  lemma EuclidPrints()
    ensures PrintableBlock(EUCLID, 0, SPACED) && BlockText(EUCLID, 0, SPACED) == WHOLE && AllInline(SPACED.gap)
  {
    assert AllInline(SPACED.gap);
    ReadPrints("a");
    ReadPrints("b");
    LoopPrints();
    LastPrint();
    Lines();
    hide StmtText, PrintableStmt, SPACED, LOOP_TEXT, LOOP, KEEP, SHOW;
    var two := Seq(Seq(Skip, Read("a")), Read("b"));
    assert BlockText(Skip, 0, SPACED) == "";
    assert BlockText(two.first, 0, SPACED) == "read a\n";
    assert BlockText(two, 0, SPACED) == "read a\n" + "read b\n";
    assert BlockText(EUCLID.first.first, 0, SPACED) == "read a\n" + "read b\n" + LOOP_TEXT;
    assert BlockText(EUCLID.first, 0, SPACED) == "read a\n" + "read b\n" + LOOP_TEXT + "int g = a\n";
  }

  // ----- common divisors -----

  ghost predicate Divides(d: int, n: int) { exists k: int :: Times(d, k, n) }

  predicate Times(d: int, k: int, n: int) { d * k == n }

  // g divides both, and every common divisor divides g.
  ghost predicate Greatest(g: int, a: int, b: int) {
    g > 0 && Divides(g, a) && Divides(g, b) && forall d :: Divides(d, a) && Divides(d, b) ==> Divides(d, g)
  }

  lemma DividesSum(d: int, m: int, n: int)
    requires Divides(d, m) && Divides(d, n)
    ensures Divides(d, m + n) && Divides(d, m - n)
  {
    var j: int :| Times(d, j, m);
    var k: int :| Times(d, k, n);
    assert Times(d, j + k, m + n) && Times(d, j - k, m - n);
  }

  lemma GreatestOfDifference(g: int, a: int, b: int)
    requires Greatest(g, a - b, b)
    ensures Greatest(g, a, b)
  {
    DividesSum(g, a - b, b);
    forall d | Divides(d, a) && Divides(d, b) ensures Divides(d, g) { DividesSum(d, a, b); }
  }

  lemma GreatestOfOne(a: int)
    requires a > 0
    ensures Greatest(a, a, a)
  {
    assert Times(a, 1, a);
  }

  // ----- the run -----

  predicate Positive(n: int) { 0 < n < 0x8000_0000 }

  // The memory holds the numbers a and b under their names.
  predicate Holds(mem: Memory, a: int, b: int) {
    Positive(a) && Positive(b) && Lookup(mem.env, "a") == a && Lookup(mem.env, "b") == b
  }

  lemma Values(mem: Memory, a: int, b: int, w: World)
    requires Holds(mem, a, b)
    ensures EvalInt(LOOP.cond, mem.env, w) == Val(LelyaVm.IntV(if a == b then 0 else 1))
    ensures EvalInt(STEP.cond, mem.env, w) == Val(LelyaVm.IntV(if a < b then 1 else 0))
    ensures EvalInt(LESS.e, mem.env, w) == Val(LelyaVm.IntV(b - a))
    ensures EvalInt(MORE.e, mem.env, w) == Val(LelyaVm.IntV(a - b))
  {
    assert Eval(A, mem.env, w) == Val(LelyaVm.IntV(a)) && Eval(B, mem.env, w) == Val(LelyaVm.IntV(b));
  }

  lemma StepRuns(mem: Memory, a: int, b: int, w: World, fuel: nat) returns (after: Memory)
    requires Holds(mem, a, b) && a != b
    ensures Run(LOOP.body, mem, w, fuel) == Normal(after) && after == mem.(env := after.env)
    ensures if a < b then Holds(after, a, b - a) else Holds(after, a - b, b)
  {
    hide EvalInt;
    Values(mem, a, b, w);
    after := mem.(env := if a < b then mem.env["b" := b - a] else mem.env["a" := a - b]);
    var s := if a < b then LESS else MORE;
    assert Run(Skip, mem, w, fuel) == Normal(mem);
    assert Run(s, mem, w, fuel) == Normal(after);
    assert Run(Seq(Skip, s), mem, w, fuel) == Normal(after);
    assert Run(STEP, mem, w, fuel) == Normal(after);
  }

  lemma {:induction false} LoopRuns(mem: Memory, a: int, b: int, w: World, fuel: nat) returns (after: Memory, g: int)
    requires Holds(mem, a, b) && fuel >= a + b
    ensures Run(LOOP, mem, w, fuel) == Normal(after) && after == mem.(env := after.env)
    ensures Holds(after, g, g) && Greatest(g, a, b)
    decreases a + b
  {
    hide EvalInt;
    Values(mem, a, b, w);
    if a == b {
      GreatestOfOne(a);
      after, g := mem, a;
    } else {
      var next := StepRuns(mem, a, b, w, fuel);
      if a < b {
        after, g := LoopRuns(next, a, b - a, w, fuel - 1);
        Swapped(g, b - a, a);
        GreatestOfDifference(g, b, a);
        Swapped(g, a, b);
      } else {
        after, g := LoopRuns(next, a - b, b, w, fuel - 1);
        GreatestOfDifference(g, a, b);
      }
    }
  }

  lemma Swapped(g: int, a: int, b: int)
    ensures Greatest(g, a, b) <==> Greatest(g, b, a)
  {
  }

  lemma EuclidRun(w: World, fuel: nat) returns (mem: Memory, g: int)
    requires Positive(w.input(0)) && Positive(w.input(1)) && fuel >= w.input(0) + w.input(1)
    ensures Run(EUCLID, EMPTY, w, fuel) == Normal(mem) && Greatest(g, w.input(0), w.input(1))
    ensures mem.trace == [LelyaVm.InInt(w.input(0)), LelyaVm.InInt(w.input(1)), LelyaVm.OutInt(g)]
  {
    hide Greatest;
    var a, b := w.input(0), w.input(1);
    var start := Memory(map["a" := a, "b" := b], 2, [LelyaVm.InInt(a), LelyaVm.InInt(b)]);
    ReadsRun(w, fuel, start);
    mem, g := LoopRuns(start, a, b, w, fuel);
    hide LOOP;
    assert Run(EUCLID.first.first, EMPTY, w, fuel) == Normal(mem);
    var kept := mem.(env := mem.env["g" := g]);
    assert EvalInt(A, mem.env, w) == Val(LelyaVm.IntV(g));
    assert Run(EUCLID.first, EMPTY, w, fuel) == Normal(kept);
    assert Eval(Var("g"), kept.env, w) == Val(LelyaVm.IntV(g));
    mem := kept.(trace := kept.trace + [LelyaVm.OutInt(g)]);
  }

  lemma ReadsRun(w: World, fuel: nat, start: Memory)
    requires
      var a, b := w.input(0), w.input(1);
      start == Memory(map["a" := a, "b" := b], 2, [LelyaVm.InInt(a), LelyaVm.InInt(b)])
    ensures Run(EUCLID.first.first.first, EMPTY, w, fuel) == Normal(start)
  {
    assert Run(Seq(Skip, Read("a")), EMPTY, w, fuel)
      == Normal(Memory(map["a" := w.input(0)], 1, [LelyaVm.InInt(w.input(0))]));
  }

  // A statement of n instructions that can be compiled and run, without a break or continue.
  predicate Simple(s: Stmt, n: nat) {
    StmtSize(s) == n && LoopsFit(s) && Runnable(s) && JumpCount(s, true) == 0 && JumpCount(s, false) == 0
  }

  lemma OperationFits(op: BinOp, x: string, y: string)
    ensures ExprSize(Bin(op, Var(x), Var(y))) == 3 && RunnableExpr(Bin(op, Var(x), Var(y)))
  {
  }

  lemma AssignFits(x: string, e: Expr)
    requires ExprSize(e) == 3 && RunnableExpr(e)
    ensures Simple(Assign(x, e), 4)
  {
  }

  lemma SeqFits(s: Stmt, t: Stmt, m: nat, n: nat)
    requires Simple(s, m) && Simple(t, n)
    ensures Simple(Seq(s, t), m + n)
  {
  }

  lemma BranchFits(c: Expr, b: Stmt, f: Stmt)
    requires ExprSize(c) == 3 && RunnableExpr(c) && Simple(b, 4) && Simple(f, 4)
    ensures Simple(IfElse(c, b, f), 13)
  {
  }

  lemma LoopFitted(c: Expr, b: Stmt)
    requires ExprSize(c) == 3 && RunnableExpr(c) && Simple(b, 13)
    ensures Simple(While(c, b), 18)
  {
  }

  lemma LoopFits()
    ensures Simple(LOOP, 18)
  {
    hide Simple, ExprSize, RunnableExpr;
    OperationFits(Sub, "b", "a");
    OperationFits(Sub, "a", "b");
    OperationFits(Lt, "a", "b");
    OperationFits(Ne, "a", "b");
    AssignFits("b", LESS.e);
    AssignFits("a", MORE.e);
    LinesFit();
    SeqFits(Skip, LESS, 0, 4);
    SeqFits(Skip, MORE, 0, 4);
    BranchFits(STEP.cond, STEP.thn, STEP.els);
    SeqFits(Skip, STEP, 0, 13);
    LoopFitted(LOOP.cond, LOOP.body);
  }

  lemma LinesFit()
    ensures Simple(Skip, 0) && Simple(Read("a"), 1) && Simple(Read("b"), 1) && Simple(KEEP, 2) && Simple(SHOW, 2)
  {
    assert RunnableExpr(A) && RunnableExpr(Var("g"));
  }

  lemma EuclidFits()
    ensures ProgramFits(EUCLID) && CodeFits(EUCLID) && Runnable(EUCLID)
  {
    LoopFits();
    TablesAre();
    LinesFit();
    hide LOOP, KEEP, SHOW, InternStmt, Simple, CodeFits;
    var two := Seq(Seq(Skip, Read("a")), Read("b"));
    SeqFits(Skip, Read("a"), 0, 1);
    SeqFits(two.first, Read("b"), 1, 1);
    SeqFits(two, LOOP, 2, 18);
    SeqFits(Seq(two, LOOP), KEEP, 20, 2);
    SeqFits(EUCLID.first, SHOW, 22, 2);
    Fitting(EUCLID);
  }

  lemma Fitting(s: Stmt)
    requires Simple(s, 24) && TablesFit(InternStmt(NO_TABLES, s))
    ensures ProgramFits(s) && CodeFits(s) && Runnable(s)
  {
  }

  const AB := Tables(["a", "b"], [])

  lemma LoopTables()
    ensures InternStmt(AB, LOOP) == AB
  {
    assert InternExpr(AB, A) == AB && InternExpr(AB, B) == AB;
    assert InternStmt(AB, LESS) == AB && InternStmt(AB, MORE) == AB;
    assert InternStmt(AB, Seq(Skip, LESS)) == AB && InternStmt(AB, Seq(Skip, MORE)) == AB;
    assert InternStmt(AB, STEP) == AB;
  }

  lemma TablesAre()
    ensures InternStmt(NO_TABLES, EUCLID) == Tables(["a", "b", "g"], [])
  {
    LoopTables();
    hide LOOP;
    var one := Seq(Skip, Read("a"));
    assert InternStmt(NO_TABLES, one) == Tables(["a"], []);
    assert InternStmt(NO_TABLES, Seq(one, Read("b"))) == AB;
    assert InternStmt(NO_TABLES, EUCLID.first.first) == AB;
    assert InternStmt(NO_TABLES, EUCLID.first) == Tables(["a", "b", "g"], []);
  }

  // Whatever two positive numbers are typed, the machine running the code compiled from this text shows their
  // greatest common divisor and halts.
  lemma TextToOutput(w: World) returns (n: nat, g: int)
    requires Positive(w.input(0)) && Positive(w.input(1))
    ensures Parse(WHOLE) == EUCLID && Greatest(g, w.input(0), w.input(1))
    ensures
      var st := LelyaVm.Steps(LelyaSafety.Compiled(Parse(WHOLE), w), LelyaVm.START, n);
      && st.status == LelyaVm.Halted
      && st.trace == [LelyaVm.InInt(w.input(0)), LelyaVm.InInt(w.input(1)), LelyaVm.OutInt(g)]
  {
    hide Greatest, BlockText, PrintableBlock, Parse, LelyaVm.Steps, Run, LelyaSafety.Compiled, ProgramFits, Runnable,
      EUCLID, WHOLE, SPACED, CodeFits, AllInline, Stops, LelyaShared.Meant, LelyaRun.Acceptable;
    EuclidPrints();
    EuclidFits();
    var fuel: nat := w.input(0) + w.input(1);
    var mem;
    mem, g := EuclidRun(w, fuel);
    n := LelyaRun.PrintedProgramRuns(EUCLID, SPACED, w, fuel);
    LelyaRun.AcceptableAccepted(WHOLE, w);
  }
}
