// No run of compiled code leaves its arrays, whatever the program: not those with a native call of the wrong
// arity, with expressions deeper than the stack, or with more names and strings than there are slots.
module LelyaSafety {
  import opened NawBase
  import opened LelyaSyntax
  import opened LelyaCode
  import opened LelyaVm
  import opened LelyaSemantics
  import opened LelyaCorrectness
  import opened LelyaStack

  // ----- what an instruction points at -----

  // The variable or string the instruction names is there, in a pool of n strings.
  predicate InRange(i: Instruction, n: nat) {
    match i.op
    case PUSH_STR => 0 <= i.arg < n
    case LOAD_VAR => 0 <= i.arg < MAX_VARS
    case STORE_VAR => 0 <= i.arg < MAX_VARS
    case READ_INT => 0 <= i.arg < MAX_VARS
    case _ => true
  }

  predicate AllInRange(g: seq<Instruction>, n: nat) { forall k :: 0 <= k < |g| ==> InRange(g[k], n) }

  // The strings that have come so far have slots among n.
  predicate Roomy(t: Tables, n: nat) { Min(|t.strs|, MAX_STRINGS) <= n }

  lemma InRangeConcat(g: seq<Instruction>, h: seq<Instruction>, n: nat)
    requires AllInRange(g, n) && AllInRange(h, n)
    ensures AllInRange(g + h, n)
  {
    hide InRange;
  }

  lemma InRangeOne(i: Instruction, n: nat)
    requires InRange(i, n)
    ensures AllInRange([i], n)
  {
  }

  lemma RoomyBefore(t: Tables, t': Tables, n: nat)
    requires Extends(t, t') && Roomy(t', n)
    ensures Roomy(t, n)
  {
  }

  lemma {:induction false} IndexInside(t: seq<string>, x: string)
    requires x in t
    ensures IndexOf(t, x) < |t|
  {
    if t[0] != x { IndexInside(t[1..], x); }
  }

  lemma SlotInside(t: seq<string>, x: string, n: nat)
    requires x in t && n > 0
    ensures 0 <= Slot(t, x, n) < Min(|t|, n)
  {
    IndexInside(t, x);
  }

  lemma {:induction false} ArgsInRange(args: seq<string>, t: seq<string>, n: nat)
    requires Min(|InternAll(t, args)|, MAX_STRINGS) <= n
    ensures AllInRange(PushArgs(args, t), n)
    decreases |args|
  {
    if args != [] {
      hide PushArgs, InternAll, Slot, AllInRange;
      var init := args[..|args| - 1];
      PushArgsIs(args, t);
      InternAllPrefix(t, args, |args| - 1);
      ArgsInRange(init, t, n);
      SlotInside(InternAll(t, args), args[|args| - 1], MAX_STRINGS);
      var push := Instruction(PUSH_STR, Slot(InternAll(t, args), args[|args| - 1], MAX_STRINGS));
      InRangeOne(push, n);
      InRangeConcat(PushArgs(init, t), [push], n);
    }
  }

  lemma {:induction false} ExprInRange(e: Expr, t: Tables, n: nat)
    requires Roomy(InternExpr(t, e), n)
    ensures AllInRange(GenExpr(e, t), n)
    decreases e
  {
    match e
    case Num(_) =>
    case Str(s) => SlotInside(Intern(t.strs, s), s, MAX_STRINGS);
    case Var(x) => SlotInside(Intern(t.vars, x), x, MAX_VARS);
    case Bin(op, l, r) =>
      GenBin(op, l, r, t);
      hide GenExpr, InternExpr, AllInRange, Roomy;
      var t1 := InternExpr(t, l);
      InternExprGrows(t1, r);
      RoomyBefore(t1, InternExpr(t1, r), n);
      ExprInRange(l, t, n);
      ExprInRange(r, t1, n);
      InRangeConcat(GenExpr(l, t), GenExpr(r, t1), n);
      OperationInRange(op, n);
      InRangeConcat(GenExpr(l, t) + GenExpr(r, t1), [Instruction(OpOf(op), 0)], n);
    case Native(id, args) =>
      ArgsInRange(args, t.strs, n);
      InRangeOne(Instruction(NATIVE_CALL, id), n);
      InRangeConcat(PushArgs(args, t.strs), [Instruction(NATIVE_CALL, id)], n);
  }

  lemma OperationInRange(op: BinOp, n: nat)
    ensures AllInRange([Instruction(OpOf(op), 0)], n)
  {
  }

  lemma GuardInRange(c: Expr, t: Tables, target: int, n: nat)
    requires Roomy(InternExpr(t, c), n)
    ensures AllInRange(Guard(c, t, target), n)
  {
    hide GenExpr, InternExpr, AllInRange;
    ExprInRange(c, t, n);
    InRangeOne(Instruction(JMP_IF_FALSE, target), n);
    InRangeConcat(GenExpr(c, t), [Instruction(JMP_IF_FALSE, target)], n);
  }

  // Every variable and string that the code of a statement names has a slot.
  lemma {:induction false} StmtInRange(s: Stmt, a: nat, x: Exits, t: Tables, n: nat)
    requires Roomy(InternStmt(t, s), n)
    ensures AllInRange(GenStmt(s, a, x.brk, x.cont, t), n)
    decreases s
  {
    hide AllInRange, GenStmt, InternStmt, Roomy;
    match s
    case Print(e) => UseInRange(s, a, x, t, n);
    case Assign(_, e) => UseInRange(s, a, x, t, n);
    case If(c, b) =>
      var t1, start := InternExpr(t, c), a + ExprSize(c) + 1;
      PartsRoomy(s, t, n);
      GenIfIs(c, b, a, x.brk, x.cont, t);
      GuardInRange(c, t, start + StmtSize(b), n);
      StmtInRange(b, start, x, t1, n);
      InRangeConcat(Guard(c, t, start + StmtSize(b)), GenStmt(b, start, x.brk, x.cont, t1), n);
    case IfElse(c, b, f) =>
      var t1, start := InternExpr(t, c), a + ExprSize(c) + 1;
      var t2, other := InternStmt(t1, b), start + StmtSize(b) + 1;
      PartsRoomy(s, t, n);
      GuardInRange(c, t, other, n);
      StmtInRange(b, start, x, t1, n);
      StmtInRange(f, other, x, t2, n);
      IfElseInRange(c, b, f, a, x, t, n);
    case While(c, b) =>
      var t1, start := InternExpr(t, c), a + ExprSize(c) + 1;
      var end := start + StmtSize(b) + 1;
      PartsRoomy(s, t, n);
      GuardInRange(c, t, end, n);
      StmtInRange(b, start, Exits(end, a), t1, n);
      WhileInRange(c, b, a, x, t, n);
    case Seq(s1, s2) =>
      PartsRoomy(s, t, n);
      GenSeqIs(s1, s2, a, x.brk, x.cont, t);
      StmtInRange(s1, a, x, t, n);
      StmtInRange(s2, a + StmtSize(s1), x, InternStmt(t, s1), n);
      InRangeConcat(GenStmt(s1, a, x.brk, x.cont, t),
                    GenStmt(s2, a + StmtSize(s1), x.brk, x.cont, InternStmt(t, s1)), n);
    case _ => SimpleInRange(s, a, x, t, n);
  }

  lemma SimpleInRange(s: Stmt, a: nat, x: Exits, t: Tables, n: nat)
    requires s.Read? || s.Break? || s.Continue? || s.Skip?
    ensures AllInRange(GenStmt(s, a, x.brk, x.cont, t), n)
  {
    if s.Read? { SlotInside(Intern(t.vars, s.x), s.x, MAX_VARS); }
  }

  lemma UseInRange(s: Stmt, a: nat, x: Exits, t: Tables, n: nat)
    requires (s.Print? || s.Assign?) && Roomy(InternStmt(t, s), n)
    ensures AllInRange(GenStmt(s, a, x.brk, x.cont, t), n)
  {
    hide GenExpr, InternExpr, AllInRange;
    var t1 := InternExpr(t, s.e);
    ExprInRange(s.e, t, n);
    if s.Print? {
      InRangeOne(Instruction(PRINT, 0), n);
      InRangeConcat(GenExpr(s.e, t), [Instruction(PRINT, 0)], n);
    } else {
      SlotInside(Intern(t1.vars, s.x), s.x, MAX_VARS);
      var store := Instruction(STORE_VAR, Slot(Intern(t1.vars, s.x), s.x, MAX_VARS));
      InRangeOne(store, n);
      InRangeConcat(GenExpr(s.e, t), [store], n);
    }
  }

  // The tables only grow, so what fits the whole fits each part.
  lemma PartsRoomy(s: Stmt, t: Tables, n: nat)
    requires Roomy(InternStmt(t, s), n)
    ensures (s.If? || s.IfElse? || s.While?) ==> Roomy(InternExpr(t, s.cond), n)
    ensures (s.If? || s.IfElse?) ==> Roomy(InternStmt(InternExpr(t, s.cond), s.thn), n)
    ensures s.IfElse? ==> Roomy(InternStmt(InternStmt(InternExpr(t, s.cond), s.thn), s.els), n)
    ensures s.While? ==> Roomy(InternStmt(InternExpr(t, s.cond), s.body), n)
    ensures s.Seq? ==> Roomy(InternStmt(t, s.first), n) && Roomy(InternStmt(InternStmt(t, s.first), s.second), n)
  {
    hide InternExpr, Roomy, Extends;
    match s
    case If(c, b) => StmtRoomy(b, InternExpr(t, c), n);
    case IfElse(c, b, f) =>
      StmtRoomy(f, InternStmt(InternExpr(t, c), b), n);
      StmtRoomy(b, InternExpr(t, c), n);
    case While(c, b) => StmtRoomy(b, InternExpr(t, c), n);
    case Seq(s1, s2) => StmtRoomy(s2, InternStmt(t, s1), n);
    case _ =>
  }

  lemma StmtRoomy(s: Stmt, t: Tables, n: nat)
    requires Roomy(InternStmt(t, s), n)
    ensures Roomy(t, n)
  {
    hide InternStmt, Roomy;
    InternStmtGrows(t, s);
    RoomyBefore(t, InternStmt(t, s), n);
  }

  lemma IfElseInRange(c: Expr, b: Stmt, f: Stmt, a: nat, x: Exits, t: Tables, n: nat)
    requires
      var t1, start := InternExpr(t, c), a + ExprSize(c) + 1;
      var other := start + StmtSize(b) + 1;
      && AllInRange(Guard(c, t, other), n) && AllInRange(GenStmt(b, start, x.brk, x.cont, t1), n)
      && AllInRange(GenStmt(f, other, x.brk, x.cont, InternStmt(t1, b)), n)
    ensures AllInRange(GenStmt(IfElse(c, b, f), a, x.brk, x.cont, t), n)
  {
    hide AllInRange, GenStmt, InternStmt, InternExpr, Guard, StmtSize, ExprSize;
    var t1, start := InternExpr(t, c), a + ExprSize(c) + 1;
    var other := start + StmtSize(b) + 1;
    GenIfElseIs(c, b, f, a, x.brk, x.cont, t);
    var g, h := Guard(c, t, other), GenStmt(b, start, x.brk, x.cont, t1);
    var jump := [Instruction(JMP, other + StmtSize(f))];
    InRangeConcat(g, h, n);
    InRangeOne(jump[0], n);
    InRangeConcat(g + h, jump, n);
    InRangeConcat(g + h + jump, GenStmt(f, other, x.brk, x.cont, InternStmt(t1, b)), n);
  }

  lemma WhileInRange(c: Expr, b: Stmt, a: nat, x: Exits, t: Tables, n: nat)
    requires
      var start := a + ExprSize(c) + 1;
      var end := start + StmtSize(b) + 1;
      AllInRange(Guard(c, t, end), n) && AllInRange(GenStmt(b, start, end, a, InternExpr(t, c)), n)
    ensures AllInRange(GenStmt(While(c, b), a, x.brk, x.cont, t), n)
  {
    hide AllInRange, GenStmt, InternStmt, InternExpr, Guard, StmtSize, ExprSize;
    var start := a + ExprSize(c) + 1;
    var end := start + StmtSize(b) + 1;
    GenWhileIs(c, b, a, x.brk, x.cont, t);
    var g, h := Guard(c, t, end), GenStmt(b, start, end, a, InternExpr(t, c));
    InRangeConcat(g, h, n);
    InRangeOne(Instruction(JMP, a), n);
    InRangeConcat(g + h, [Instruction(JMP, a)], n);
  }

  // ----- every run -----

  // What the compiler leaves of any program: its code, and as many of its strings as the pool holds.
  function Compiled(prog: Stmt, w: World): Machine {
    Machine(GenProgram(prog), Kept(FinalTables(prog).strs, MAX_STRINGS), w.native, w.input)
  }

  // The variables and the stack as large as they are, the next instruction in the code.
  predicate WithinArrays(m: Machine, st: State) {
    && st.status != Crashed && |st.vars| == MAX_VARS && |st.stack| <= STACK_SIZE
    && (st.status == Running ==> 0 <= st.ip < |m.code|)
  }

  lemma CodeInRange(prog: Stmt, w: World, k: nat)
    requires k < |GenProgram(prog)|
    ensures
      var m := Compiled(prog, w);
      && InRange(m.code[k], |m.pool|)
      && (m.code[k].op == HALT || k + 1 < |m.code|)
      && (m.code[k].op == JMP || m.code[k].op == JMP_IF_FALSE ==> 0 <= m.code[k].arg < |m.code|)
  {
    hide GenStmt, InternStmt, InRange;
    var n := |Compiled(prog, w).pool|;
    JumpsLand(prog, k);
    StmtInRange(prog, 0, Exits(0, 0), NO_TABLES, n);
    HaltInRange(n);
    InRangeConcat(GenStmt(prog, 0, 0, 0, NO_TABLES), [Instruction(HALT, 0)], n);
    assert InRange(GenProgram(prog)[k], n);
  }

  lemma HaltInRange(n: nat)
    ensures AllInRange([Instruction(HALT, 0)], n)
  {
  }

  // An instruction that names what is there leaves no array, and goes on behind itself or to its target.
  lemma ExecuteInside(m: Machine, st: State, i: Instruction)
    requires st.status == Running && |st.vars| == MAX_VARS && |st.stack| <= STACK_SIZE && InRange(i, |m.pool|)
    ensures
      var st' := Execute(m, st, i.op, i.arg);
      && st'.status != Crashed && |st'.vars| == MAX_VARS && |st'.stack| <= STACK_SIZE
      && (st'.status == Running ==>
            i.op != HALT && (st'.ip == st.ip || ((i.op == JMP || i.op == JMP_IF_FALSE) && st'.ip == i.arg)))
  {
    hide Binary, CallNative, Output, Push, PopInt;
    forall op ensures Unmoved(st, Binary(st, op)) { BinaryUnmoved(st, op); }
    forall v ensures Unmoved(st, Push(st, v)) { PushUnmoved(st, v); }
    PopUnmoved(st);
    NativeUnmoved(m, st, i.arg);
    OutputUnmoved(st);
  }

  // The variables and the position are as before, the stack in its array, and the run has not crashed.
  predicate Unmoved(st: State, st': State) {
    st'.vars == st.vars && st'.ip == st.ip && st'.status != Crashed && |st'.stack| <= STACK_SIZE
  }

  lemma PushUnmoved(st: State, v: Value)
    requires st.status == Running && |st.stack| <= STACK_SIZE
    ensures Unmoved(st, Push(st, v)) && Push(st, v).status == Running
  {
  }

  lemma PopUnmoved(st: State)
    requires st.status == Running && |st.stack| <= STACK_SIZE
    ensures Unmoved(st, PopInt(st).0) && PopInt(st).0.status == Running
  {
  }

  lemma BinaryUnmoved(st: State, op: BinOp)
    requires st.status == Running && |st.stack| <= STACK_SIZE
    ensures Unmoved(st, Binary(st, op))
  {
    hide Arith;
  }

  lemma NativeUnmoved(m: Machine, st: State, id: int)
    requires st.status == Running && |st.stack| <= STACK_SIZE
    ensures Unmoved(st, CallNative(m, st, id))
  {
    hide NativeArity;
    if 0 <= NativeArity(id) <= |st.stack| { PopStringsShrinks(st, NativeArity(id), []); }
  }

  lemma {:induction false} PopStringsShrinks(st: State, n: nat, args: seq<string>)
    requires n <= |st.stack|
    ensures |PopStrings(st, n, args).0.stack| <= |st.stack|
    decreases n
  {
    if n > 0 && st.stack[|st.stack| - 1].StrV? {
      PopStringsShrinks(Popped(st), n - 1, [st.stack[|st.stack| - 1].s] + args);
    }
  }

  lemma OutputUnmoved(st: State)
    requires st.status == Running && |st.stack| <= STACK_SIZE
    ensures Unmoved(st, Output(st))
  {
  }

  lemma StepWithin(prog: Stmt, w: World, st: State)
    requires WithinArrays(Compiled(prog, w), st)
    ensures WithinArrays(Compiled(prog, w), Step(Compiled(prog, w), st))
  {
    hide Execute, InRange;
    var m := Compiled(prog, w);
    if st.status == Running {
      CodeInRange(prog, w, st.ip);
      hide Compiled;
      ExecuteInside(m, st.(ip := st.ip + 1), m.code[st.ip]);
    }
  }

  // Every state of every run of the compiled code of any program is within the machine's arrays.
  lemma {:induction false} NeverCrashes(prog: Stmt, w: World, n: nat)
    ensures WithinArrays(Compiled(prog, w), Steps(Compiled(prog, w), START, n))
  {
    hide Step, Compiled, GenProgram;
    if n == 0 {
      StartsWithin(prog, w);
    } else {
      NeverCrashes(prog, w, n - 1);
      StepWithin(prog, w, Steps(Compiled(prog, w), START, n - 1));
    }
  }

  lemma StartsWithin(prog: Stmt, w: World)
    ensures WithinArrays(Compiled(prog, w), START)
  {
    hide GenStmt, InternStmt;
  }

  // ----- the stack in every run -----

  // Whatever tables it overfills, in every run of a program whose native calls have the machine's arity and whose
  // expressions fit the stack, every instruction finds the stack at the height assigned to it.
  lemma {:induction false} StackDiscipline(prog: Stmt, w: World, n: nat)
    requires Runnable(prog)
    ensures AtHeight(prog, Steps(Compiled(prog, w), START, n))
  {
    if n == 0 {
      EndsEmpty(prog);
    } else {
      hide Step, AtHeight, Runnable;
      StackDiscipline(prog, w, n - 1);
      NeverCrashes(prog, w, n);
      StepKeepsHeight(prog, Compiled(prog, w), Steps(Compiled(prog, w), START, n - 1));
    }
  }

  // The operand stack is empty whenever such a run is at the start of a statement, however it got there.
  lemma EmptyBetweenStatements(prog: Stmt, w: World, n: nat)
    requires Runnable(prog)
    ensures
      var st := Steps(Compiled(prog, w), START, n);
      st.status == Running && st.ip >= 0 && StartsStatement(prog, st.ip) ==> st.stack == []
  {
    hide Steps, StmtHeight, Compiled;
    StackDiscipline(prog, w, n);
    var st := Steps(Compiled(prog, w), START, n);
    if st.status == Running && st.ip >= 0 && StartsStatement(prog, st.ip) {
      StartsAtZero(prog, st.ip);
    }
  }
}
