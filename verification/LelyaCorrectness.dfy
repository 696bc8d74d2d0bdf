// Compiled code does what the program means: a simulation of the interpreter by the machine.
module LelyaCorrectness {
  import opened NawBase
  import opened LelyaSyntax
  import opened LelyaCode
  import opened LelyaVm
  import opened LelyaSemantics

  // The fragment g lies in the code at address a.
  predicate Holds(code: seq<Instruction>, a: nat, g: seq<Instruction>) {
    a + |g| <= |code| && code[a..a + |g|] == g
  }

  lemma HoldsParts(code: seq<Instruction>, a: nat, g1: seq<Instruction>, g2: seq<Instruction>)
    requires Holds(code, a, g1 + g2)
    ensures Holds(code, a, g1) && Holds(code, a + |g1|, g2)
  {
    assert code[a..a + |g1|] == code[a..a + |g1 + g2|][..|g1|];
    assert code[a + |g1|..a + |g1| + |g2|] == code[a..a + |g1 + g2|][|g1|..];
  }

  lemma HoldsAt(code: seq<Instruction>, a: nat, i: Instruction)
    requires Holds(code, a, [i])
    ensures a < |code| && code[a] == i
  {
    assert code[a..a + 1][0] == code[a];
  }

  // The machine's variables are the interpreter's, found through the final name table.
  predicate Agrees(vars: seq<int>, env: map<string, int>, names: seq<string>) {
    && |vars| == MAX_VARS && |names| <= MAX_VARS
    && forall x :: x in names ==> vars[IndexOfIn(names, x)] == Lookup(env, x)
  }

  function IndexOfIn(names: seq<string>, x: string): (i: nat)
    requires x in names
    ensures i == IndexOf(names, x) && i < |names| && names[i] == x
  {
    IndexOfMember(names, x);
    IndexOf(names, x)
  }

  lemma {:induction false} IndexOfMember(t: seq<string>, x: string)
    requires x in t
    ensures IndexOf(t, x) < |t| && t[IndexOf(t, x)] == x
  {
    if t[0] != x { IndexOfMember(t[1..], x); }
  }

  // An index emitted while the table was shorter keeps its meaning in the final table.
  lemma {:induction false} IndexOfStable(t: seq<string>, t': seq<string>, x: string)
    requires x in t && t <= t'
    ensures IndexOf(t, x) == IndexOf(t', x) && x in t'
  {
    if t[0] != x { IndexOfStable(t[1..], t'[1..], x); }
  }

  // A slot emitted while the table was shorter leads to the name in the final table, when all have a slot.
  lemma SlotStable(t: seq<string>, final: seq<string>, x: string, n: nat)
    requires x in t && t <= final && |final| <= n
    ensures Slot(t, x, n) == IndexOf(final, x) < |final| && x in final && final[IndexOf(final, x)] == x
  {
    IndexOfStable(t, final, x);
    IndexOfMember(final, x);
  }

  lemma AgreesUpdate(vars: seq<int>, env: map<string, int>, names: seq<string>, x: string, v: int)
    requires Agrees(vars, env, names) && x in names
    ensures IndexOf(names, x) < |vars|
    ensures Agrees(vars[IndexOf(names, x) := v], env[x := v], names)
  {
    var i := IndexOfIn(names, x);
    forall y | y in names ensures vars[i := v][IndexOfIn(names, y)] == Lookup(env[x := v], y) {
      if y != x { assert IndexOfIn(names, y) != i; }
    }
  }

  // ----- expressions -----

  ghost predicate Ready(m: Machine, st: State, final: Tables, env: map<string, int>, w: World) {
    && st.status == Running && Agrees(st.vars, env, final.vars)
    && m.pool == final.strs && |final.strs| <= MAX_STRINGS && m.native == w.native && m.input == w.input
  }

  // The state after an expression of the given size: its value pushed, or the run stopped.
  ghost predicate Evaluated(st: State, st': State, size: nat, r: Result) {
    match r
    case Val(v) => st' == st.(ip := st.ip + size, stack := st.stack + [v])
    case Err(msg) =>
      && st'.status == Failed && st'.trace == st.trace + [OutError(msg)]
      && st'.vars == st.vars && st'.consumed == st.consumed
  }

  lemma OneStep(m: Machine, st: State)
    requires st.status == Running && 0 <= st.ip < |m.code|
    ensures Steps(m, st, 1) == Execute(m, st.(ip := st.ip + 1), m.code[st.ip].op, m.code[st.ip].arg)
  {
    hide Execute;
    assert Steps(m, st, 0) == st;
  }

  lemma {:induction false} SimulateExpr(m: Machine, e: Expr, t: Tables, final: Tables, a: nat, st: State,
                                        env: map<string, int>, w: World) returns (n: nat)
    requires Ready(m, st, final, env, w) && st.ip == a
    requires Holds(m.code, a, GenExpr(e, t)) && Extends(InternExpr(t, e), final)
    requires Arities(e) && |st.stack| + Depth(e) <= STACK_SIZE
    ensures n >= 1 && Evaluated(st, Steps(m, st, n), ExprSize(e), Eval(e, env, w))
    decreases e, 1
  {
    hide Steps, Holds, Ready, GenExpr, InternExpr, Evaluated, Eval, Extends;
    match e
    case Bin(_, _, _) => n := SimulateBin(m, e, t, final, a, st, env, w);
    case Native(id, args) => n := SimulateNative(m, id, args, t, final, a, st, env, w);
    case Num(_) => n := 1; SimulateNum(m, e, t, final, a, st, env, w);
    case Str(_) => n := 1; SimulateStr(m, e, t, final, a, st, env, w);
    case Var(_) => n := 1; SimulateVar(m, e, t, final, a, st, env, w);
  }

  // An operation: the left operand, the right one above it, then the instruction.
  lemma {:induction false} SimulateBin(m: Machine, e: Expr, t: Tables, final: Tables, a: nat, st: State,
                                       env: map<string, int>, w: World) returns (n: nat)
    requires e.Bin? && Ready(m, st, final, env, w) && st.ip == a
    requires Holds(m.code, a, GenExpr(e, t)) && Extends(InternExpr(t, e), final)
    requires Arities(e) && |st.stack| + Depth(e) <= STACK_SIZE
    ensures n >= 1 && Evaluated(st, Steps(m, st, n), ExprSize(e), Eval(e, env, w))
    decreases e, 0
  {
    hide Steps, Holds, Ready, GenExpr, InternExpr, Operate, Eval, Extends;
    var l, r, last := e.left, e.right, Instruction(OpOf(e.op), 0);
    var t1 := InternExpr(t, l);
    BinHolds(m.code, e, t, final, a);
    BinEval(e, env, w);
    var n1 := SimulateExpr(m, l, t, final, a, st, env, w);
    var v1 := Eval(l, env, w);
    if v1.Err? { return n1; }
    var st1 := Steps(m, st, n1);
    ReadyAfter(m, st, st1, final, env, w);
    var n2 := SimulateExpr(m, r, t1, final, a + ExprSize(l), st1, env, w);
    StepsAdd(m, st, n1, n2);
    var v2 := Eval(r, env, w);
    if v2.Err? { return n1 + n2; }
    var st2 := Steps(m, st1, n2);
    ReadyAfter(m, st1, st2, final, env, w);
    HoldsAt(m.code, st2.ip, last);
    SimulateOperation(m, e.op, st.stack, v1.v, v2.v, st2);
    StepsAdd(m, st, n1 + n2, 1);
    n := n1 + n2 + 1;
  }

  lemma BinHolds(code: seq<Instruction>, e: Expr, t: Tables, final: Tables, a: nat)
    requires e.Bin? && Holds(code, a, GenExpr(e, t)) && Extends(InternExpr(t, e), final)
    ensures
      var t1, a1 := InternExpr(t, e.left), a + ExprSize(e.left);
      && Holds(code, a, GenExpr(e.left, t)) && Extends(t1, final)
      && Holds(code, a1, GenExpr(e.right, t1)) && Extends(InternExpr(t1, e.right), final)
      && Holds(code, a1 + ExprSize(e.right), [Instruction(OpOf(e.op), 0)])
  {
    GenBin(e.op, e.left, e.right, t);
    hide Holds, GenExpr, InternExpr;
    var t1 := InternExpr(t, e.left);
    InternExprGrows(t1, e.right);
    HoldsParts(code, a, GenExpr(e.left, t) + GenExpr(e.right, t1), [Instruction(OpOf(e.op), 0)]);
    HoldsParts(code, a, GenExpr(e.left, t), GenExpr(e.right, t1));
  }

  lemma BinEval(e: Expr, env: map<string, int>, w: World)
    requires e.Bin?
    ensures
      var v1, v2 := Eval(e.left, env, w), Eval(e.right, env, w);
      Eval(e, env, w) == if v1.Err? then v1 else if v2.Err? then v2 else Operate(e.op, v1.v, v2.v)
  {
    hide Operate;
  }

  // The machine stays ready as long as it runs on with the same variables.
  lemma ReadyAfter(m: Machine, st: State, st': State, final: Tables, env: map<string, int>, w: World)
    requires Ready(m, st, final, env, w) && st'.status == st.status && st'.vars == st.vars
    ensures Ready(m, st', final, env, w) && st'.status == Running
  {
    hide Agrees;
  }

  lemma SimulateNum(m: Machine, e: Expr, t: Tables, final: Tables, a: nat, st: State, env: map<string, int>, w: World)
    requires e.Num? && Ready(m, st, final, env, w) && st.ip == a && |st.stack| < STACK_SIZE
    requires Holds(m.code, a, GenExpr(e, t))
    ensures Evaluated(st, Steps(m, st, 1), 1, Eval(e, env, w))
  {
    hide Holds, Steps, Agrees;
    HoldsAt(m.code, a, Instruction(PUSH_INT, e.n));
    OneStep(m, st);
  }

  lemma SimulateStr(m: Machine, e: Expr, t: Tables, final: Tables, a: nat, st: State, env: map<string, int>, w: World)
    requires e.Str? && Ready(m, st, final, env, w) && st.ip == a && |st.stack| < STACK_SIZE
    requires Holds(m.code, a, GenExpr(e, t)) && Extends(InternExpr(t, e), final)
    ensures Evaluated(st, Steps(m, st, 1), 1, Eval(e, env, w))
  {
    hide Holds, Steps, Slot, IndexOf, Agrees;
    var names := Intern(t.strs, e.s);
    HoldsAt(m.code, a, Instruction(PUSH_STR, Slot(names, e.s, MAX_STRINGS)));
    SlotStable(names, final.strs, e.s, MAX_STRINGS);
    OneStep(m, st);
  }

  lemma SimulateVar(m: Machine, e: Expr, t: Tables, final: Tables, a: nat, st: State, env: map<string, int>, w: World)
    requires e.Var? && Ready(m, st, final, env, w) && st.ip == a && |st.stack| < STACK_SIZE
    requires Holds(m.code, a, GenExpr(e, t)) && Extends(InternExpr(t, e), final)
    ensures Evaluated(st, Steps(m, st, 1), 1, Eval(e, env, w))
  {
    hide Holds, Steps, Slot, IndexOf;
    var names := Intern(t.vars, e.x);
    HoldsAt(m.code, a, Instruction(LOAD_VAR, Slot(names, e.x, MAX_VARS)));
    SlotStable(names, final.vars, e.x, MAX_VARS);
    assert st.vars[IndexOfIn(final.vars, e.x)] == Lookup(env, e.x);
    OneStep(m, st);
  }

  lemma SimulateOperation(m: Machine, op: BinOp, base: seq<Value>, a: Value, b: Value, st: State)
    requires st.status == Running && 0 <= st.ip < |m.code| && m.code[st.ip] == Instruction(OpOf(op), 0)
    requires st.stack == base + [a] + [b] && |base| < STACK_SIZE
    ensures Evaluated(st.(stack := base), Steps(m, st, 1), 1, Operate(op, a, b))
  {
    hide Steps, Arith, Binary, Operate;
    OneStep(m, st);
    ExecuteOperation(m, op, st.(ip := st.ip + 1));
    BinaryIs(op, base, a, b, st.(ip := st.ip + 1));
  }

  lemma ExecuteOperation(m: Machine, op: BinOp, st: State)
    ensures Execute(m, st, OpOf(op), 0) == Binary(st, op)
  {
    hide Binary;
  }

  lemma BinaryIs(op: BinOp, base: seq<Value>, a: Value, b: Value, st: State)
    requires st.status == Running && st.stack == base + [a] + [b] && |base| < STACK_SIZE
    ensures
      var st', r := Binary(st, op), Operate(op, a, b);
      if r.Val? then st' == st.(stack := base + [r.v])
      else (st'.status == Failed && st'.trace == st.trace + [OutError(r.message)]
            && st'.vars == st.vars && st'.consumed == st.consumed)
  {
    hide Arith;
    assert st.stack[..|st.stack| - 1] == base + [a];
    assert (base + [a])[..|base|] == base;
  }

  lemma {:induction false} SimulateArgs(m: Machine, args: seq<string>, t: seq<string>, final: Tables, a: nat, st: State,
                                        env: map<string, int>, w: World)
    requires Ready(m, st, final, env, w) && st.ip == a
    requires Holds(m.code, a, PushArgs(args, t)) && InternAll(t, args) <= final.strs
    requires |st.stack| + |args| <= STACK_SIZE
    ensures Steps(m, st, |args|) == st.(ip := a + |args|, stack := st.stack + Strings(args))
  {
    hide Steps, Holds, Agrees, Slot, Strings, PushArgs, InternAll;
    if args == [] {
      NoStrings();
      NoSteps(m, st);
    } else {
      var k := |args| - 1;
      var init, last := args[..k], args[k];
      var st1 := st.(ip := a + k, stack := st.stack + Strings(init));
      ArgsParts(m.code, a, args, t, final.strs);
      SimulateArgs(m, init, t, final, a, st, env, w);
      SimulateArg(m, InternAll(t, args), last, final, st1, env, w);
      StepsAdd(m, st, k, 1);
      ArgAppended(st.stack, args);
    }
  }

  lemma NoStrings()
    ensures Strings([]) == []
  {
  }

  // The code that pushes the last of some arguments, after that of the others.
  lemma ArgsParts(code: seq<Instruction>, a: nat, args: seq<string>, t: seq<string>, final: seq<string>)
    requires args != [] && Holds(code, a, PushArgs(args, t)) && InternAll(t, args) <= final
    ensures
      var k := |args| - 1;
      && InternAll(t, args[..k]) <= final && args[k] in InternAll(t, args) && Holds(code, a, PushArgs(args[..k], t))
      && Holds(code, a + k, [Instruction(PUSH_STR, Slot(InternAll(t, args), args[k], MAX_STRINGS))])
  {
    hide Holds, Slot, PushArgs, InternAll;
    var k := |args| - 1;
    PushArgsIs(args, t);
    HoldsParts(code, a, PushArgs(args[..k], t),
               [Instruction(PUSH_STR, Slot(InternAll(t, args), args[k], MAX_STRINGS))]);
    InternAllPrefix(t, args, k);
    PrefixOfPrefix(InternAll(t, args[..k]), InternAll(t, args), final);
  }

  lemma PrefixOfPrefix(a: seq<string>, b: seq<string>, c: seq<string>)
    requires a <= b <= c
    ensures a <= c
  {
  }

  lemma ExtendsTrans(a: Tables, b: Tables, c: Tables)
    requires Extends(a, b) && Extends(b, c)
    ensures Extends(a, c)
  {
    PrefixOfPrefix(a.vars, b.vars, c.vars);
    PrefixOfPrefix(a.strs, b.strs, c.strs);
  }

  lemma ArgAppended(stack: seq<Value>, args: seq<string>)
    requires args != []
    ensures stack + Strings(args[..|args| - 1]) + [StrV(args[|args| - 1])] == stack + Strings(args)
  {
    StringsLast(args);
  }

  lemma SimulateArg(m: Machine, t: seq<string>, x: string, final: Tables, st: State, env: map<string, int>, w: World)
    requires Ready(m, st, final, env, w) && st.ip >= 0 && |st.stack| < STACK_SIZE && x in t && t <= final.strs
    requires Holds(m.code, st.ip, [Instruction(PUSH_STR, Slot(t, x, MAX_STRINGS))])
    ensures Steps(m, st, 1) == st.(ip := st.ip + 1, stack := st.stack + [StrV(x)])
  {
    hide Steps, Holds, Agrees, Slot;
    HoldsAt(m.code, st.ip, Instruction(PUSH_STR, Slot(t, x, MAX_STRINGS)));
    SlotStable(t, final.strs, x, MAX_STRINGS);
    PushStep(m, st, Slot(t, x, MAX_STRINGS));
  }

  lemma PushArgsIs(args: seq<string>, t: seq<string>)
    requires args != []
    ensures args[|args| - 1] in InternAll(t, args)
    ensures PushArgs(args, t) == PushArgs(args[..|args| - 1], t)
      + [Instruction(PUSH_STR, Slot(InternAll(t, args), args[|args| - 1], MAX_STRINGS))]
  {
  }

  lemma PushStep(m: Machine, st: State, arg: int)
    requires st.status == Running && 0 <= st.ip < |m.code| && m.code[st.ip] == Instruction(PUSH_STR, arg)
    requires 0 <= arg < |m.pool| && |st.stack| < STACK_SIZE
    ensures Steps(m, st, 1) == st.(ip := st.ip + 1, stack := st.stack + [StrV(m.pool[arg])])
  {
    OneStep(m, st);
  }

  lemma StringsLast(args: seq<string>)
    requires args != []
    ensures Strings(args) == Strings(args[..|args| - 1]) + [StrV(args[|args| - 1])]
  {
  }

  function Strings(args: seq<string>): (r: seq<Value>)
    ensures |r| == |args|
  {
    seq(|args|, i requires 0 <= i < |args| => StrV(args[i]))
  }

  lemma {:induction false} PopStringsBack(st: State, base: seq<Value>, args: seq<string>, rest: seq<string>)
    requires st.stack == base + Strings(args)
    ensures PopStrings(st, |args|, rest) == (st.(stack := base), Some(args + rest))
    decreases |args|
  {
    if args == [] {
      assert st.stack == base && args + rest == rest;
    } else {
      var k := |args| - 1;
      assert st.stack[|st.stack| - 1] == StrV(args[k]);
      assert st.stack[..|st.stack| - 1] == base + Strings(args[..k]);
      PopStringsBack(Popped(st), base, args[..k], [args[k]] + rest);
      assert args[..k] + ([args[k]] + rest) == args + rest;
    }
  }

  lemma SimulateNative(m: Machine, id: nat, args: seq<string>, t: Tables, final: Tables, a: nat, st: State,
                       env: map<string, int>, w: World) returns (n: nat)
    requires Ready(m, st, final, env, w) && st.ip == a
    requires Holds(m.code, a, GenExpr(Native(id, args), t)) && Extends(InternExpr(t, Native(id, args)), final)
    requires NativeArity(id) == |args| && |st.stack| + Depth(Native(id, args)) <= STACK_SIZE
    ensures n >= 1
    ensures Evaluated(st, Steps(m, st, n), |args| + 1, Eval(Native(id, args), env, w))
  {
    hide Steps, Holds, Agrees, PopStrings, NativeArity, InternAll, PushArgs, Strings;
    var call := Instruction(NATIVE_CALL, id);
    HoldsParts(m.code, a, PushArgs(args, t.strs), [call]);
    SimulateArgs(m, args, t.strs, final, a, st, env, w);
    var st1 := Steps(m, st, |args|);
    HoldsAt(m.code, st1.ip, call);
    OneStep(m, st1);
    StepsAdd(m, st, |args|, 1);
    PopStringsBack(st1.(ip := st1.ip + 1), st.stack, args, []);
    assert args + [] == args;
    n := |args| + 1;
  }

  // ----- statements -----

  // The machine stands between statements, in the interpreter's state, with an empty operand stack.
  ghost predicate Matches(m: Machine, st: State, final: Tables, mem: Memory, w: World) {
    Ready(m, st, final, mem.env, w) && st.stack == [] && st.consumed == mem.consumed && st.trace == mem.trace
  }

  // The run is over after an error, with the interpreter's variables, input and output.
  ghost predicate Failing(st: State, final: Tables, mem: Memory) {
    st.status == Failed && Agrees(st.vars, mem.env, final.vars) && st.consumed == mem.consumed && st.trace == mem.trace
  }

  // How the machine stands when the interpreter's outcome is out: at the end of the statement, at
  // the exits of the loop around it, stopped, or, when the fuel ran out, still running.
  ghost predicate Ended(m: Machine, st: State, final: Tables, out: Outcome, end: int, x: Exits, w: World) {
    match out
    case Normal(mem) => Matches(m, st, final, mem, w) && st.ip == end
    case Broke(mem) => Matches(m, st, final, mem, w) && st.ip == x.brk
    case Continued(mem) => Matches(m, st, final, mem, w) && st.ip == x.cont
    case Stopped(mem) => Failing(st, final, mem)
    case Timeout(mem) => Matches(m, st, final, mem, w)
  }

  lemma SimulateGuard(m: Machine, c: Expr, t: Tables, final: Tables, a: nat, target: int, st: State, mem: Memory,
                      w: World)
    returns (n: nat)
    requires Matches(m, st, final, mem, w) && st.ip == a
    requires Holds(m.code, a, Guard(c, t, target)) && Extends(InternExpr(t, c), final) && RunnableExpr(c)
    ensures n >= 1
    ensures match EvalInt(c, mem.env, w)
      case Val(v) => v.IntV? && Matches(m, Steps(m, st, n), final, mem, w)
        && Steps(m, st, n).ip == if v.n == 0 then target else a + ExprSize(c) + 1
      case Err(msg) => Failing(Steps(m, st, n), final, Abort(mem, msg).mem)
  {
    hide Steps, Step, Execute, Holds, Agrees, GenExpr, Eval;
    var jump := Instruction(JMP_IF_FALSE, target);
    HoldsParts(m.code, a, GenExpr(c, t), [jump]);
    var n1 := SimulateExpr(m, c, t, final, a, st, mem.env, w);
    var v := Eval(c, mem.env, w);
    if v.Err? { return n1; }
    SimulateBranch(m, target, Steps(m, st, n1), v.v);
    StepsAdd(m, st, n1, 1);
    n := n1 + 1;
  }

  lemma SimulateBranch(m: Machine, target: int, st: State, v: Value)
    requires st.status == Running && st.ip >= 0 && st.stack == [v]
    requires Holds(m.code, st.ip, [Instruction(JMP_IF_FALSE, target)])
    ensures Steps(m, st, 1) ==
      var st' := st.(ip := st.ip + 1, stack := []);
      if v.StrV? then Fail(st', TYPE_MISMATCH) else if v.n == 0 then st'.(ip := target) else st'
  {
    HoldsAt(m.code, st.ip, Instruction(JMP_IF_FALSE, target));
    OneStep(m, st);
  }

  lemma SimulatePrint(m: Machine, e: Expr, t: Tables, final: Tables, a: nat, x: Exits, st: State, mem: Memory,
                      w: World, fuel: nat)
    returns (n: nat)
    requires Matches(m, st, final, mem, w) && st.ip == a && RunnableExpr(e)
    requires Holds(m.code, a, GenStmt(Print(e), a, x.brk, x.cont, t)) && Extends(InternExpr(t, e), final)
    ensures Ended(m, Steps(m, st, n), final, Run(Print(e), mem, w, fuel), a + ExprSize(e) + 1, x, w)
  {
    hide Steps, Step, Execute, Holds, Agrees, GenExpr, InternExpr, Eval, PrintEvent;
    var last := Instruction(PRINT, 0);
    HoldsParts(m.code, a, GenExpr(e, t), [last]);
    var n1 := SimulateExpr(m, e, t, final, a, st, mem.env, w);
    var v := Eval(e, mem.env, w);
    if v.Err? { return n1; }
    var st1 := Steps(m, st, n1);
    HoldsAt(m.code, st1.ip, last);
    ShowStep(m, st1, v.v);
    StepsAdd(m, st, n1, 1);
    n := n1 + 1;
  }

  lemma SimulateAssign(m: Machine, y: string, e: Expr, t: Tables, final: Tables, a: nat, x: Exits, st: State,
                       mem: Memory, w: World, fuel: nat) returns (n: nat)
    requires Matches(m, st, final, mem, w) && st.ip == a && RunnableExpr(e)
    requires Holds(m.code, a, GenStmt(Assign(y, e), a, x.brk, x.cont, t)) && Extends(InternStmt(t, Assign(y, e)), final)
    ensures Ended(m, Steps(m, st, n), final, Run(Assign(y, e), mem, w, fuel), a + ExprSize(e) + 1, x, w)
  {
    hide Steps, Step, Execute, Holds, Agrees, GenExpr, InternExpr, Eval, Intern, IndexOf, Slot;
    var t1 := InternExpr(t, e);
    var last := Instruction(STORE_VAR, Slot(Intern(t1.vars, y), y, MAX_VARS));
    HoldsParts(m.code, a, GenExpr(e, t), [last]);
    MatchesFits(m, st, final, mem, w);
    InternName(t1.vars, final.vars, y);
    var n1 := SimulateExpr(m, e, t, final, a, st, mem.env, w);
    var v := Eval(e, mem.env, w);
    if v.Err? { return n1; }
    var st1 := Steps(m, st, n1);
    HoldsAt(m.code, st1.ip, last);
    if v.v.IntV? { AgreesUpdate(st.vars, mem.env, final.vars, y, v.v.n); }
    StoreStep(m, st1, v.v, last.arg);
    StepsAdd(m, st, n1, 1);
    n := n1 + 1;
  }

  lemma ShowStep(m: Machine, st: State, v: Value)
    requires st.status == Running && 0 <= st.ip < |m.code| && m.code[st.ip].op == PRINT && st.stack == [v]
    ensures Steps(m, st, 1) == st.(ip := st.ip + 1, stack := [], trace := st.trace + [PrintEvent(v)])
  {
    hide PrintEvent;
    OneStep(m, st);
  }

  lemma StoreStep(m: Machine, st: State, v: Value, arg: int)
    requires st.status == Running && 0 <= st.ip < |m.code| && m.code[st.ip] == Instruction(STORE_VAR, arg)
    requires st.stack == [v]
    ensures
      var st' := st.(ip := st.ip + 1, stack := []);
      && (v.StrV? ==> Steps(m, st, 1) == Fail(st', TYPE_MISMATCH))
      && (v.IntV? && 0 <= arg < |st.vars| ==> Steps(m, st, 1) == st'.(vars := st.vars[arg := v.n]))
  {
    OneStep(m, st);
  }

  lemma MatchesFits(m: Machine, st: State, final: Tables, mem: Memory, w: World)
    requires Matches(m, st, final, mem, w)
    ensures |final.vars| <= MAX_VARS
  {
  }

  lemma InternName(names: seq<string>, final: seq<string>, x: string)
    requires Intern(names, x) <= final && |final| <= MAX_VARS
    ensures names <= final && x in final && Slot(Intern(names, x), x, MAX_VARS) == IndexOf(final, x)
  {
    SlotStable(Intern(names, x), final, x, MAX_VARS);
  }

  lemma SimulateRead(m: Machine, s: Stmt, t: Tables, final: Tables, a: nat, x: Exits, st: State, mem: Memory,
                     w: World, fuel: nat)
    requires s.Read?
    requires Matches(m, st, final, mem, w) && st.ip == a
    requires Holds(m.code, a, GenStmt(s, a, x.brk, x.cont, t)) && Extends(InternStmt(t, s), final)
    ensures Ended(m, Steps(m, st, 1), final, Run(s, mem, w, fuel), a + StmtSize(s), x, w)
  {
    MatchesFits(m, st, final, mem, w);
    hide Agrees, Intern, Steps, Holds, Slot, IndexOf;
    HoldsAt(m.code, a, GenStmt(s, a, x.brk, x.cont, t)[0]);
    OneStep(m, st);
    InternName(t.vars, final.vars, s.x);
    AgreesUpdate(st.vars, mem.env, final.vars, s.x, w.input(mem.consumed));
  }

  lemma SimulateJump(m: Machine, a: nat, target: int, st: State, final: Tables, mem: Memory, w: World)
    requires Matches(m, st, final, mem, w) && st.ip == a && Holds(m.code, a, [Instruction(JMP, target)])
    ensures Steps(m, st, 1) == st.(ip := target) && Matches(m, Steps(m, st, 1), final, mem, w)
  {
    hide Agrees;
    HoldsAt(m.code, a, Instruction(JMP, target));
    OneStep(m, st);
  }

  // From any state between statements, the code of s takes the machine where the interpreter goes;
  // a run the interpreter cannot finish takes at least as many steps as it had fuel.
  lemma {:induction false} SimulateStmt(m: Machine, s: Stmt, t: Tables, final: Tables, a: nat, x: Exits, st: State,
                                        mem: Memory, w: World, fuel: nat) returns (n: nat)
    requires Matches(m, st, final, mem, w) && st.ip == a
    requires Holds(m.code, a, GenStmt(s, a, x.brk, x.cont, t)) && Extends(InternStmt(t, s), final) && Runnable(s)
    ensures Ended(m, Steps(m, st, n), final, Run(s, mem, w, fuel), a + StmtSize(s), x, w)
    ensures Run(s, mem, w, fuel).Timeout? ==> n >= fuel
    decreases fuel, s, 1
  {
    hide Steps, Holds, Matches, GenStmt, InternStmt;
    match s
    case Skip => n := 0; NoSteps(m, st);
    case Print(e) => SimpleTables(s, t, final); n := SimulatePrint(m, e, t, final, a, x, st, mem, w, fuel);
    case Assign(y, e) => n := SimulateAssign(m, y, e, t, final, a, x, st, mem, w, fuel);
    case Read(_) => n := 1; SimulateRead(m, s, t, final, a, x, st, mem, w, fuel);
    case Break => n := 1; GenJump(s, a, x, t); SimulateJump(m, a, x.brk, st, final, mem, w);
    case Continue => n := 1; GenJump(s, a, x, t); SimulateJump(m, a, x.cont, st, final, mem, w);
    case If(_, _) => n := SimulateIf(m, s, t, final, a, x, st, mem, w, fuel);
    case IfElse(_, _, _) => n := SimulateIfElse(m, s, t, final, a, x, st, mem, w, fuel);
    case While(_, _) => n := SimulateWhile(m, s, t, final, a, x, st, mem, w, fuel);
    case Seq(_, _) => n := SimulateSeq(m, s, t, final, a, x, st, mem, w, fuel);
  }

  lemma SimpleTables(s: Stmt, t: Tables, final: Tables)
    requires s.Print? && Extends(InternStmt(t, s), final)
    ensures Extends(InternExpr(t, s.e), final)
  {
  }

  lemma NoSteps(m: Machine, st: State)
    ensures Steps(m, st, 0) == st
  {
  }

  lemma GenJump(s: Stmt, a: nat, x: Exits, t: Tables)
    ensures s == Break ==> GenStmt(s, a, x.brk, x.cont, t) == [Instruction(JMP, x.brk)]
    ensures s == Continue ==> GenStmt(s, a, x.brk, x.cont, t) == [Instruction(JMP, x.cont)]
  {
  }

  lemma {:induction false} SimulateSeq(m: Machine, s: Stmt, t: Tables, final: Tables, a: nat, x: Exits, st: State,
                                       mem: Memory, w: World, fuel: nat) returns (n: nat)
    requires s.Seq? && Matches(m, st, final, mem, w) && st.ip == a
    requires Holds(m.code, a, GenStmt(s, a, x.brk, x.cont, t)) && Extends(InternStmt(t, s), final) && Runnable(s)
    ensures Ended(m, Steps(m, st, n), final, Run(s, mem, w, fuel), a + StmtSize(s), x, w)
    ensures Run(s, mem, w, fuel).Timeout? ==> n >= fuel
    decreases fuel, s, 0
  {
    hide Steps, Holds, Matches, GenStmt, InternStmt, Extends;
    var t1 := InternStmt(t, s.first);
    var a2 := a + StmtSize(s.first);
    SeqHolds(m.code, s, t, final, a, x);
    var n1 := SimulateStmt(m, s.first, t, final, a, x, st, mem, w, fuel);
    var out := Run(s.first, mem, w, fuel);
    if !out.Normal? { return n1; }
    var n2 := SimulateStmt(m, s.second, t1, final, a2, x, Steps(m, st, n1), out.mem, w, fuel);
    StepsAdd(m, st, n1, n2);
    n := n1 + n2;
  }

  lemma SeqHolds(code: seq<Instruction>, s: Stmt, t: Tables, final: Tables, a: nat, x: Exits)
    requires s.Seq? && Holds(code, a, GenStmt(s, a, x.brk, x.cont, t)) && Extends(InternStmt(t, s), final)
    ensures
      var t1, a2 := InternStmt(t, s.first), a + StmtSize(s.first);
      && Holds(code, a, GenStmt(s.first, a, x.brk, x.cont, t)) && Extends(t1, final)
      && Holds(code, a2, GenStmt(s.second, a2, x.brk, x.cont, t1)) && Extends(InternStmt(t1, s.second), final)
  {
    var t1, a2 := InternStmt(t, s.first), a + StmtSize(s.first);
    hide Holds, GenStmt, InternStmt, Extends, StmtSize;
    SeqTables(s.first, s.second, t);
    GenSeqIs(s.first, s.second, a, x.brk, x.cont, t);
    HoldsParts(code, a, GenStmt(s.first, a, x.brk, x.cont, t), GenStmt(s.second, a2, x.brk, x.cont, t1));
    InternStmtGrows(t1, s.second);
    ExtendsTrans(t1, InternStmt(t1, s.second), final);
  }

  lemma {:induction false} SimulateIf(m: Machine, s: Stmt, t: Tables, final: Tables, a: nat, x: Exits, st: State,
                                      mem: Memory, w: World, fuel: nat) returns (n: nat)
    requires s.If? && Matches(m, st, final, mem, w) && st.ip == a
    requires Holds(m.code, a, GenStmt(s, a, x.brk, x.cont, t)) && Extends(InternStmt(t, s), final) && Runnable(s)
    ensures Ended(m, Steps(m, st, n), final, Run(s, mem, w, fuel), a + StmtSize(s), x, w)
    ensures Run(s, mem, w, fuel).Timeout? ==> n >= fuel
    decreases fuel, s, 0
  {
    hide Steps, Holds, Matches, Guard, GenStmt, InternExpr, InternStmt, Extends;
    var t1 := InternExpr(t, s.cond);
    var start := a + ExprSize(s.cond) + 1;
    var end := start + StmtSize(s.thn);
    IfHolds(m.code, s, t, final, a, x);
    var n1 := SimulateGuard(m, s.cond, t, final, a, end, st, mem, w);
    var v := EvalInt(s.cond, mem.env, w);
    if v.Err? || v.v.n == 0 { return n1; }
    var n2 := SimulateStmt(m, s.thn, t1, final, start, x, Steps(m, st, n1), mem, w, fuel);
    StepsAdd(m, st, n1, n2);
    n := n1 + n2;
  }

  lemma {:induction false} SimulateIfElse(m: Machine, s: Stmt, t: Tables, final: Tables, a: nat, x: Exits, st: State,
                                          mem: Memory, w: World, fuel: nat) returns (n: nat)
    requires s.IfElse? && Matches(m, st, final, mem, w) && st.ip == a
    requires Holds(m.code, a, GenStmt(s, a, x.brk, x.cont, t)) && Extends(InternStmt(t, s), final) && Runnable(s)
    ensures Ended(m, Steps(m, st, n), final, Run(s, mem, w, fuel), a + StmtSize(s), x, w)
    ensures Run(s, mem, w, fuel).Timeout? ==> n >= fuel
    decreases fuel, s, 0
  {
    hide Steps, Holds, Matches, Guard, GenStmt, InternStmt, InternExpr, Extends;
    var t1 := InternExpr(t, s.cond);
    var t2 := InternStmt(t1, s.thn);
    var start := a + ExprSize(s.cond) + 1;
    var other := start + StmtSize(s.thn) + 1;
    IfElseHolds(m.code, s, t, final, a, x);
    var n1 := SimulateGuard(m, s.cond, t, final, a, other, st, mem, w);
    var v := EvalInt(s.cond, mem.env, w);
    if v.Err? { return n1; }
    var st1 := Steps(m, st, n1);
    if v.v.n == 0 {
      var n2 := SimulateStmt(m, s.els, t2, final, other, x, st1, mem, w, fuel);
      StepsAdd(m, st, n1, n2);
      return n1 + n2;
    }
    var n2 := SimulateStmt(m, s.thn, t1, final, start, x, st1, mem, w, fuel);
    StepsAdd(m, st, n1, n2);
    n := n1 + n2;
    var out := Run(s.thn, mem, w, fuel);
    if out.Normal? {
      SimulateJump(m, other - 1, other + StmtSize(s.els), Steps(m, st, n), final, out.mem, w);
      StepsAdd(m, st, n, 1);
      n := n + 1;
    }
  }

  lemma IfHolds(code: seq<Instruction>, s: Stmt, t: Tables, final: Tables, a: nat, x: Exits)
    requires s.If? && Holds(code, a, GenStmt(s, a, x.brk, x.cont, t)) && Extends(InternStmt(t, s), final)
    ensures
      var t1 := InternExpr(t, s.cond);
      var start := a + ExprSize(s.cond) + 1;
      && Holds(code, a, Guard(s.cond, t, start + StmtSize(s.thn))) && Extends(t1, final)
      && Holds(code, start, GenStmt(s.thn, start, x.brk, x.cont, t1)) && Extends(InternStmt(t1, s.thn), final)
  {
    hide Holds, Guard, GenStmt, InternExpr, StmtSize, ExprSize;
    GenIfIs(s.cond, s.thn, a, x.brk, x.cont, t);
    var t1 := InternExpr(t, s.cond);
    var start := a + ExprSize(s.cond) + 1;
    HoldsParts(code, a, Guard(s.cond, t, start + StmtSize(s.thn)), GenStmt(s.thn, start, x.brk, x.cont, t1));
    InternStmtGrows(t1, s.thn);
  }

  lemma IfElseHolds(code: seq<Instruction>, s: Stmt, t: Tables, final: Tables, a: nat, x: Exits)
    requires s.IfElse? && Holds(code, a, GenStmt(s, a, x.brk, x.cont, t)) && Extends(InternStmt(t, s), final)
    ensures
      var t1 := InternExpr(t, s.cond);
      var t2 := InternStmt(t1, s.thn);
      var start := a + ExprSize(s.cond) + 1;
      var other := start + StmtSize(s.thn) + 1;
      && Holds(code, a, Guard(s.cond, t, other)) && Extends(t1, final)
      && Holds(code, start, GenStmt(s.thn, start, x.brk, x.cont, t1)) && Extends(t2, final)
      && Holds(code, other - 1, [Instruction(JMP, other + StmtSize(s.els))])
      && Holds(code, other, GenStmt(s.els, other, x.brk, x.cont, t2)) && Extends(InternStmt(t2, s.els), final)
  {
    hide Holds, Guard, GenStmt, InternExpr, StmtSize, ExprSize;
    GenIfElseIs(s.cond, s.thn, s.els, a, x.brk, x.cont, t);
    var t1 := InternExpr(t, s.cond);
    var t2 := InternStmt(t1, s.thn);
    var start := a + ExprSize(s.cond) + 1;
    var other := start + StmtSize(s.thn) + 1;
    var g1, g2 := Guard(s.cond, t, other), GenStmt(s.thn, start, x.brk, x.cont, t1);
    var g3, g4 := [Instruction(JMP, other + StmtSize(s.els))], GenStmt(s.els, other, x.brk, x.cont, t2);
    InternStmtGrows(t1, s.thn);
    InternStmtGrows(t2, s.els);
    HoldsParts(code, a, g1 + g2 + g3, g4);
    HoldsParts(code, a, g1 + g2, g3);
    HoldsParts(code, a, g1, g2);
  }

  lemma {:induction false} SimulateWhile(m: Machine, s: Stmt, t: Tables, final: Tables, a: nat, x: Exits, st: State,
                                         mem: Memory, w: World, fuel: nat) returns (n: nat)
    requires s.While? && Matches(m, st, final, mem, w) && st.ip == a
    requires Holds(m.code, a, GenStmt(s, a, x.brk, x.cont, t)) && Extends(InternStmt(t, s), final) && Runnable(s)
    ensures Ended(m, Steps(m, st, n), final, Run(s, mem, w, fuel), a + StmtSize(s), x, w)
    ensures Run(s, mem, w, fuel).Timeout? ==> n >= fuel
    decreases fuel, s, 0
  {
    hide Steps, Holds, Matches, Guard, GenStmt, InternStmt;
    if fuel == 0 { n := 0; NoSteps(m, st); return; }
    var t1 := InternExpr(t, s.cond);
    var start := a + ExprSize(s.cond) + 1;
    var end := start + StmtSize(s.body) + 1;
    WhileHolds(m.code, s, t, final, a, x);
    var n1 := SimulateGuard(m, s.cond, t, final, a, end, st, mem, w);
    var v := EvalInt(s.cond, mem.env, w);
    if v.Err? || v.v.n == 0 { return n1; }
    var n2 := SimulateStmt(m, s.body, t1, final, start, Exits(end, a), Steps(m, st, n1), mem, w, fuel);
    StepsAdd(m, st, n1, n2);
    n := n1 + n2;
    var out := Run(s.body, mem, w, fuel);
    if out.Normal? {
      SimulateJump(m, end - 1, a, Steps(m, st, n), final, out.mem, w);
      StepsAdd(m, st, n, 1);
      n := n + 1;
    }
    if out.Normal? || out.Continued? {
      var n3 := SimulateWhile(m, s, t, final, a, x, Steps(m, st, n), out.mem, w, fuel - 1);
      StepsAdd(m, st, n, n3);
      n := n + n3;
    }
  }

  lemma WhileHolds(code: seq<Instruction>, s: Stmt, t: Tables, final: Tables, a: nat, x: Exits)
    requires s.While? && Holds(code, a, GenStmt(s, a, x.brk, x.cont, t)) && Extends(InternStmt(t, s), final)
    ensures
      var t1 := InternExpr(t, s.cond);
      var start := a + ExprSize(s.cond) + 1;
      var end := start + StmtSize(s.body) + 1;
      && Holds(code, a, Guard(s.cond, t, end)) && Extends(t1, final)
      && Holds(code, start, GenStmt(s.body, start, end, a, t1)) && Extends(InternStmt(t1, s.body), final)
      && Holds(code, end - 1, [Instruction(JMP, a)])
  {
    hide Holds, Guard, GenStmt, InternExpr, StmtSize, ExprSize;
    GenWhileIs(s.cond, s.body, a, x.brk, x.cont, t);
    var t1 := InternExpr(t, s.cond);
    var start := a + ExprSize(s.cond) + 1;
    var end := start + StmtSize(s.body) + 1;
    var g1, g2 := Guard(s.cond, t, end), GenStmt(s.body, start, end, a, t1);
    InternStmtGrows(t1, s.body);
    HoldsParts(code, a, g1 + g2, [Instruction(JMP, a)]);
    HoldsParts(code, a, g1, g2);
  }

  // ----- whole programs -----

  function FinalTables(prog: Stmt): Tables { InternStmt(NO_TABLES, prog) }

  function Load(prog: Stmt, w: World): Machine {
    Machine(GenProgram(prog), FinalTables(prog).strs, w.native, w.input)
  }

  // A program that fits the compiler's tables and the machine, with no jump outside a loop.
  predicate Accepted(prog: Stmt) {
    ProgramFits(prog) && Runnable(prog) && JumpFree(prog)
  }

  // The machine's state st is the one the interpreter's outcome describes.
  ghost predicate Same(prog: Stmt, st: State, out: Outcome) {
    && !out.Broke? && !out.Continued?
    && st.status == (if out.Normal? then Halted else if out.Stopped? then Failed else Running)
    && st.trace == out.mem.trace && st.consumed == out.mem.consumed
    && Agrees(st.vars, out.mem.env, FinalTables(prog).vars)
  }

  lemma {:induction false} NoStrayJumps(s: Stmt, mem: Memory, w: World, fuel: nat)
    requires JumpFree(s)
    ensures !Run(s, mem, w, fuel).Broke? && !Run(s, mem, w, fuel).Continued?
    decreases fuel, s
  {
    match s
    case If(c, b) =>
      var v := EvalInt(c, mem.env, w);
      if v.Val? && v.v.n != 0 { NoStrayJumps(b, mem, w, fuel); }
    case IfElse(c, b, f) =>
      var v := EvalInt(c, mem.env, w);
      if v.Val? { NoStrayJumps(if v.v.n != 0 then b else f, mem, w, fuel); }
    case While(c, b) =>
      var v := EvalInt(c, mem.env, w);
      if fuel > 0 && v.Val? && v.v.n != 0 {
        var out := Run(b, mem, w, fuel);
        if out.Normal? || out.Continued? { NoStrayJumps(s, out.mem, w, fuel - 1); }
      }
    case Seq(s1, s2) =>
      NoStrayJumps(s1, mem, w, fuel);
      var out := Run(s1, mem, w, fuel);
      if out.Normal? { NoStrayJumps(s2, out.mem, w, fuel); }
    case _ =>
  }

  // Semantic preservation: for any fuel the interpreter's outcome (finished, stopped by an error, or
  // still running) is a state of the machine's run, with the same output, input and variables; an
  // unfinished run is reached only after at least as many instructions as there was fuel.
  lemma Preservation(prog: Stmt, w: World, fuel: nat) returns (n: nat)
    requires Accepted(prog)
    ensures Same(prog, Steps(Load(prog, w), START, n), Run(prog, EMPTY, w, fuel))
    ensures Run(prog, EMPTY, w, fuel).Timeout? ==> n >= fuel
  {
    hide Steps, Holds, GenStmt, InternStmt, GenProgram, Run, LoopsFit, JumpFree, Runnable, Agrees;
    var m := Load(prog, w);
    var final := FinalTables(prog);
    WholeHolds(prog, m.code);
    StartAgrees(final);
    n := SimulateStmt(m, prog, NO_TABLES, final, 0, Exits(0, 0), START, EMPTY, w, fuel);
    NoStrayJumps(prog, EMPTY, w, fuel);
    if Run(prog, EMPTY, w, fuel).Normal? {
      HaltsNext(m, n);
      n := n + 1;
    }
  }

  lemma HaltsNext(m: Machine, n: nat)
    requires
      var st := Steps(m, START, n);
      st.status == Running && 0 <= st.ip && Holds(m.code, st.ip, [Instruction(HALT, 0)])
    ensures
      var st := Steps(m, START, n);
      Steps(m, START, n + 1) == st.(ip := st.ip + 1, status := Halted)
  {
    hide Steps, Holds;
    var st := Steps(m, START, n);
    HoldsAt(m.code, st.ip, Instruction(HALT, 0));
    OneStep(m, st);
    StepsAdd(m, START, n, 1);
  }

  lemma WholeHolds(prog: Stmt, code: seq<Instruction>)
    requires code == GenProgram(prog)
    ensures Holds(code, 0, GenStmt(prog, 0, 0, 0, NO_TABLES)) && Holds(code, StmtSize(prog), [Instruction(HALT, 0)])
  {
    hide GenStmt;
    assert code[0..|code|] == code;
    HoldsParts(code, 0, GenStmt(prog, 0, 0, 0, NO_TABLES), [Instruction(HALT, 0)]);
  }

  lemma StartAgrees(final: Tables)
    requires TablesFit(final)
    ensures Agrees(START.vars, map[], final.vars)
  {
  }

  // The machine's run never ends exactly when the interpreter never does.
  lemma DivergenceAgrees(prog: Stmt, w: World)
    requires Accepted(prog)
    ensures (forall n: nat :: Steps(Load(prog, w), START, n).status == Running)
        <==> (forall fuel: nat :: Run(prog, EMPTY, w, fuel).Timeout?)
  {
    hide Steps, Run;
    var m := Load(prog, w);
    if forall fuel: nat :: Run(prog, EMPTY, w, fuel).Timeout? {
      forall n: nat ensures Steps(m, START, n).status == Running {
        assert Run(prog, EMPTY, w, n).Timeout?;
        var k := Preservation(prog, w, n);
        if Steps(m, START, n).status != Running { StepsMonotone(m, START, n, k); }
      }
    }
    if fuel: nat :| !Run(prog, EMPTY, w, fuel).Timeout? {
      var n := Preservation(prog, w, fuel);
      assert Steps(m, START, n).status != Running;
    }
  }

  // A machine run that ends, ends as the interpreter does.
  lemma EndAgrees(prog: Stmt, w: World, n: nat) returns (fuel: nat)
    requires Accepted(prog) && Steps(Load(prog, w), START, n).status != Running
    ensures Same(prog, Steps(Load(prog, w), START, n), Run(prog, EMPTY, w, fuel))
    ensures !Run(prog, EMPTY, w, fuel).Timeout?
    ensures forall more: nat :: more >= fuel ==> Run(prog, EMPTY, w, more) == Run(prog, EMPTY, w, fuel)
  {
    hide Steps, Run;
    var m := Load(prog, w);
    fuel := n;
    var k := Preservation(prog, w, fuel);
    if k <= n { StepsMonotone(m, START, k, n); } else { StepsMonotone(m, START, n, k); }
    forall more: nat | more >= fuel ensures Run(prog, EMPTY, w, more) == Run(prog, EMPTY, w, fuel) {
      FuelMonotone(prog, EMPTY, w, fuel, more);
    }
  }

  lemma {:induction false} EvalErrors(e: Expr, env: map<string, int>, w: World)
    ensures Eval(e, env, w).Err? ==> Eval(e, env, w).message == TYPE_MISMATCH
  {
    if e.Bin? {
      EvalErrors(e.left, env, w);
      EvalErrors(e.right, env, w);
    }
  }

  ghost predicate Clean(trace: seq<Event>) {
    forall e :: e in trace && e.OutError? ==> e.message == TYPE_MISMATCH
  }

  lemma {:induction false} OnlyMismatches(s: Stmt, mem: Memory, w: World, fuel: nat)
    requires Clean(mem.trace)
    ensures Clean(Run(s, mem, w, fuel).mem.trace)
    decreases fuel, s
  {
    match s
    case Print(e) => EvalErrors(e, mem.env, w);
    case Assign(_, e) => EvalErrors(e, mem.env, w);
    case If(c, b) =>
      EvalErrors(c, mem.env, w);
      OnlyMismatches(b, mem, w, fuel);
    case IfElse(c, b, f) =>
      EvalErrors(c, mem.env, w);
      OnlyMismatches(b, mem, w, fuel);
      OnlyMismatches(f, mem, w, fuel);
    case While(c, b) =>
      EvalErrors(c, mem.env, w);
      if fuel > 0 {
        OnlyMismatches(b, mem, w, fuel);
        OnlyMismatches(s, Run(b, mem, w, fuel).mem, w, fuel - 1);
      }
    case Seq(s1, s2) =>
      OnlyMismatches(s1, mem, w, fuel);
      OnlyMismatches(s2, Run(s1, mem, w, fuel).mem, w, fuel);
    case _ =>
  }

  // Everything a run has shown so far is something the interpreter shows, in the same order; so no
  // run leaves its arrays, and none complains of the operand stack, bad code or a bad native call.
  lemma EveryStateSafe(prog: Stmt, w: World, n: nat) returns (fuel: nat)
    requires Accepted(prog)
    ensures Steps(Load(prog, w), START, n).status != Crashed
    ensures Steps(Load(prog, w), START, n).trace <= Run(prog, EMPTY, w, fuel).mem.trace
    ensures Clean(Steps(Load(prog, w), START, n).trace)
  {
    hide Steps, Run;
    var m := Load(prog, w);
    if Steps(m, START, n).status != Running {
      fuel := EndAgrees(prog, w, n);
    } else {
      fuel := n;
      var k := Preservation(prog, w, fuel);
      if k < n { StepsMonotone(m, START, k, n); } else { StepsMonotone(m, START, n, k); }
    }
    OnlyMismatches(prog, EMPTY, w, fuel);
  }

  // A native call nets exactly one value if and only if it passes as many arguments as the machine
  // pops; an extra argument stays on the stack, a missing one takes something from below.
  lemma NativeNetsOne(m: Machine, id: nat, args: seq<string>, t: Tables, final: Tables, a: nat, st: State,
                      env: map<string, int>, w: World)
    requires Ready(m, st, final, env, w) && st.ip == a && id < NATIVE_COUNT
    requires Holds(m.code, a, GenExpr(Native(id, args), t)) && Extends(InternExpr(t, Native(id, args)), final)
    requires |st.stack| + |args| < STACK_SIZE
    ensures
      var st' := Steps(m, st, |args| + 1);
      (st'.status == Running && |st'.stack| == |st.stack| + 1) <==> NativeArity(id) == |args|
  {
    hide Steps, Holds, Agrees, PopStrings, InternAll, PushArgs, Strings;
    var call := Instruction(NATIVE_CALL, id);
    HoldsParts(m.code, a, PushArgs(args, t.strs), [call]);
    SimulateArgs(m, args, t.strs, final, a, st, env, w);
    var st1 := Steps(m, st, |args|);
    HoldsAt(m.code, st1.ip, call);
    OneStep(m, st1);
    StepsAdd(m, st, |args|, 1);
    var st2 := st1.(ip := st1.ip + 1);
    if NativeArity(id) <= |st2.stack| { PopStringsLength(st2, NativeArity(id), []); }
    if NativeArity(id) == |args| {
      PopStringsBack(st2, st.stack, args, []);
    }
  }

  lemma {:induction false} PopStringsLength(st: State, n: nat, args: seq<string>)
    requires n <= |st.stack|
    ensures PopStrings(st, n, args).1.Some? ==> |PopStrings(st, n, args).0.stack| == |st.stack| - n
    decreases n
  {
    if n > 0 && st.stack[|st.stack| - 1].StrV? {
      PopStringsLength(Popped(st), n - 1, [st.stack[|st.stack| - 1].s] + args);
    }
  }
}
