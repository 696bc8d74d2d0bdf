// The stack machine that runs compiled Lelya code.
module LelyaVm {
  import opened NawBase
  import opened LelyaSyntax
  import opened LelyaCode

  datatype Value = IntV(n: int) | StrV(s: string)

  // What the outside sees: numbers print as unsigned 32-bit decimals.
  datatype Event = OutInt(n: nat) | OutStr(s: string) | OutError(message: string) | InInt(v: int)

  const TYPE_MISMATCH := "VM: type mismatch"
  const BAD_NATIVE := "VM: bad native call"
  const NATIVE_STRINGS := "VM: native math expects string arguments"
  const UNDERFLOW := "VM: stack underflow"
  const OVERFLOW := "VM: stack overflow"

  // Crashed stands for what C leaves undefined: an instruction, variable or string outside its array.
  datatype Status = Running | Halted | Failed | Crashed

  // The code, the string pool, and the world: the text-valued math functions, and the numbers typed in.
  datatype Machine = Machine(code: seq<Instruction>, pool: seq<string>,
                             native: (int, seq<string>) -> string, input: nat -> int)

  datatype State = State(ip: int, stack: seq<Value>, vars: seq<int>, consumed: nat, trace: seq<Event>, status: Status)

  const START := State(0, [], seq(MAX_VARS, _ => 0), 0, [], Running)

  function PrintEvent(v: Value): Event {
    match v
    case IntV(n) => OutInt(n % 0x1_0000_0000)
    case StrV(s) => OutStr(s)
  }

  function Fail(st: State, message: string): State {
    st.(trace := st.trace + [OutError(message)], status := Failed)
  }

  // A full stack drops the value and complains, and the run goes on.
  function Push(st: State, v: Value): State {
    if |st.stack| >= STACK_SIZE then st.(trace := st.trace + [OutError(OVERFLOW)])
    else st.(stack := st.stack + [v])
  }

  function Popped(st: State): State
    requires st.stack != []
  {
    st.(stack := st.stack[..|st.stack| - 1])
  }

  // Pops an integer; None when there is no value or it is a string (which is popped all the same).
  function PopInt(st: State): (State, Option<int>) {
    if st.stack == [] then (st, None)
    else
      var v := st.stack[|st.stack| - 1];
      (Popped(st), if v.IntV? then Some(v.n) else None)
  }

  function Binary(st: State, op: BinOp): State {
    var (st1, b) := PopInt(st);
    if b.None? then Fail(st1, TYPE_MISMATCH)
    else
      var (st2, a) := PopInt(st1);
      if a.None? then Fail(st2, TYPE_MISMATCH)
      else
        match Arith(op, a.value, b.value)
        case None => Fail(st2, TYPE_MISMATCH)
        case Some(v) => Push(st2, IntV(v))
  }

  // Pops n strings in front of those already popped, the last argument first.
  function PopStrings(st: State, n: nat, args: seq<string>): (r: (State, Option<seq<string>>))
    requires n <= |st.stack|
    ensures r.0 == st.(stack := r.0.stack)
    decreases n
  {
    if n == 0 then (st, Some(args))
    else
      var v := st.stack[|st.stack| - 1];
      if v.IntV? then (Popped(st), None) else PopStrings(Popped(st), n - 1, [v.s] + args)
  }

  function CallNative(m: Machine, st: State, id: int): State {
    var argc := NativeArity(id);
    if argc < 0 || |st.stack| < argc then Fail(st, BAD_NATIVE)
    else
      var (st', args) := PopStrings(st, argc, []);
      if args.None? then Fail(st', NATIVE_STRINGS) else Push(st', StrV(m.native(id, args.value)))
  }

  function Execute(m: Machine, st: State, op: OpCode, arg: int): State {
    match op
    case HALT => st.(status := Halted)
    case PUSH_INT => Push(st, IntV(arg))
    case PUSH_STR => if 0 <= arg < |m.pool| then Push(st, StrV(m.pool[arg])) else st.(status := Crashed)
    case LOAD_VAR => if 0 <= arg < |st.vars| then Push(st, IntV(st.vars[arg])) else st.(status := Crashed)
    case STORE_VAR =>
      var (st', v) := PopInt(st);
      if v.None? then Fail(st', TYPE_MISMATCH)
      else if 0 <= arg < |st.vars| then st'.(vars := st'.vars[arg := v.value])
      else st.(status := Crashed)
    case READ_INT =>
      if 0 <= arg < |st.vars| then
        var v := m.input(st.consumed);
        st.(vars := st.vars[arg := v], consumed := st.consumed + 1, trace := st.trace + [InInt(v)])
      else st.(status := Crashed)
    case JMP => st.(ip := arg)
    case JMP_IF_FALSE =>
      var (st', v) := PopInt(st);
      if v.None? then Fail(st', TYPE_MISMATCH)
      else if v.value == 0 then st'.(ip := arg) else st'
    case NATIVE_CALL => CallNative(m, st, arg)
    case PRINT => Output(st) case PRINT_INT => Output(st) case PRINT_STR => Output(st)
    case ADD => Binary(st, Add) case SUB => Binary(st, Sub) case MUL => Binary(st, Mul) case DIV => Binary(st, Div)
    case EQ => Binary(st, Eq) case NE => Binary(st, Ne) case LT => Binary(st, Lt)
    case GT => Binary(st, Gt) case LE => Binary(st, Le) case GE => Binary(st, Ge)
  }

  function Output(st: State): State {
    if st.stack == [] then Fail(st, UNDERFLOW)
    else Popped(st).(trace := st.trace + [PrintEvent(st.stack[|st.stack| - 1])])
  }

  function Step(m: Machine, st: State): State {
    if st.status != Running then st
    else if !(0 <= st.ip < |m.code|) then st.(status := Crashed)
    else Execute(m, st.(ip := st.ip + 1), m.code[st.ip].op, m.code[st.ip].arg)
  }

  function Steps(m: Machine, st: State, n: nat): State {
    if n == 0 then st else Step(m, Steps(m, st, n - 1))
  }

  lemma {:induction false} StepsAdd(m: Machine, st: State, a: nat, b: nat)
    ensures Steps(m, Steps(m, st, a), b) == Steps(m, st, a + b)
  {
    hide Step;
    if b > 0 { StepsAdd(m, st, a, b - 1); }
  }

  // Output and input only grow, and a run that is over stays as it is.
  lemma {:induction false} StepsMonotone(m: Machine, st: State, a: nat, b: nat)
    requires a <= b
    ensures Steps(m, st, a).trace <= Steps(m, st, b).trace
    ensures Steps(m, st, a).status != Running ==> Steps(m, st, b) == Steps(m, st, a)
    decreases b - a
  {
    if a < b {
      hide Execute;
      StepsMonotone(m, st, a, b - 1);
      TraceGrows(m, Steps(m, st, b - 1));
    }
  }

  lemma TraceGrows(m: Machine, st: State)
    ensures st.trace <= Step(m, st).trace
  {
    hide Binary, CallNative, Output, PopInt;
    if st.status == Running && 0 <= st.ip < |m.code| {
      var st1, arg := st.(ip := st.ip + 1), m.code[st.ip].arg;
      PopIntFrame(st1);
      forall op ensures st.trace <= Binary(st1, op).trace { BinaryGrows(st1, op); }
      NativeGrows(m, st1, arg);
      OutputGrows(st1);
    }
  }

  lemma PopIntFrame(st: State)
    ensures PopInt(st).0.trace == st.trace
  {
  }

  lemma BinaryGrows(st: State, op: BinOp)
    ensures st.trace <= Binary(st, op).trace
  {
    hide Arith;
  }

  lemma NativeGrows(m: Machine, st: State, id: int)
    ensures st.trace <= CallNative(m, st, id).trace
  {
    hide NativeArity;
  }

  lemma OutputGrows(st: State)
    ensures st.trace <= Output(st).trace
  {
  }

  // ----- the machine as it runs -----

  class Vm {
    const stack: array<Value>
    const vars: array<int>
    var sp: nat
    var ip: int
    var consumed: nat
    var trace: seq<Event>
    var status: Status

    ghost predicate Valid()
      reads this
    {
      stack.Length == STACK_SIZE && vars.Length == MAX_VARS && sp <= STACK_SIZE
    }

    ghost function Abs(): State
      requires Valid()
      reads this, stack, vars
    {
      State(ip, stack[..sp], vars[..], consumed, trace, status)
    }

    constructor ()
      ensures Valid() && fresh(stack) && fresh(vars) && Abs() == START
    {
      stack := new Value[STACK_SIZE](_ => IntV(0));
      vars := new int[MAX_VARS](_ => 0);
      sp, ip, consumed, trace, status := 0, 0, 0, [], Running;
      new;
      assert vars[..] == seq(MAX_VARS, _ => 0);
    }

    method PushValue(v: Value)
      requires Valid()
      modifies this`sp, this`trace, stack
      ensures Valid() && Abs() == Push(old(Abs()), v)
    {
      if sp >= STACK_SIZE {
        trace := trace + [OutError(OVERFLOW)];
        return;
      }
      stack[sp] := v;
      sp := sp + 1;
    }

    method Pop() returns (v: Option<Value>)
      requires Valid()
      modifies this`sp
      ensures Valid()
      ensures old(sp) == 0 ==> v == None && Abs() == old(Abs())
      ensures old(sp) > 0 ==> v == Some(old(Abs()).stack[old(sp) - 1]) && Abs() == Popped(old(Abs()))
    {
      if sp == 0 { return None; }
      sp := sp - 1;
      v := Some(stack[sp]);
    }

    method PopInteger() returns (v: Option<int>)
      requires Valid()
      modifies this`sp
      ensures Valid() && (Abs(), v) == PopInt(old(Abs()))
    {
      var top := Pop();
      v := if top.Some? && top.value.IntV? then Some(top.value.n) else None;
    }

    method Error(message: string)
      requires Valid()
      modifies this`trace, this`status
      ensures Valid() && Abs() == Fail(old(Abs()), message)
    {
      trace := trace + [OutError(message)];
      status := Failed;
    }

    method Operate(op: BinOp)
      requires Valid()
      modifies this`sp, this`trace, this`status, stack
      ensures Valid() && Abs() == Binary(old(Abs()), op)
    {
      hide Arith;
      var b := PopInteger();
      if b.None? {
        Error(TYPE_MISMATCH);
        return;
      }
      var a := PopInteger();
      if a.None? {
        Error(TYPE_MISMATCH);
        return;
      }
      var r := Arith(op, a.value, b.value);
      if r.None? {
        Error(TYPE_MISMATCH);
        return;
      }
      PushValue(IntV(r.value));
    }

    method Native(m: Machine, id: int)
      requires Valid()
      modifies this`sp, this`trace, this`status, stack
      ensures Valid() && Abs() == CallNative(m, old(Abs()), id)
    {
      hide NativeArity;
      var argc := NativeArity(id);
      if argc < 0 || sp < argc {
        Error(BAD_NATIVE);
        return;
      }
      var args: seq<string> := [];
      ghost var st := Abs();
      while |args| < argc
        invariant Valid() && |args| <= argc && argc - |args| <= sp
        invariant PopStrings(st, argc, []) == PopStrings(Abs(), argc - |args|, args)
        invariant trace == st.trace && status == st.status
      {
        var top := Pop();
        if top.value.IntV? {
          Error(NATIVE_STRINGS);
          return;
        }
        args := [top.value.s] + args;
      }
      PushValue(StrV(m.native(id, args)));
    }

    // One instruction. The caller answers for what C does not check.
    method Next(m: Machine)
      requires Valid() && status == Running && Step(m, Abs()).status != Crashed
      modifies this, stack, vars
      ensures Valid() && Abs() == Step(m, old(Abs()))
    {
      hide Binary, CallNative, Output;
      var op, arg := m.code[ip].op, m.code[ip].arg;
      ip := ip + 1;
      match op {
        case HALT => status := Halted;
        case PUSH_INT => PushValue(IntV(arg));
        case PUSH_STR => PushValue(StrV(m.pool[arg]));
        case LOAD_VAR => PushValue(IntV(vars[arg]));
        case STORE_VAR =>
          var v := PopInteger();
          if v.None? {
            Error(TYPE_MISMATCH);
          } else {
            vars[arg] := v.value;
          }
        case READ_INT =>
          var v := m.input(consumed);
          vars[arg] := v;
          consumed := consumed + 1;
          trace := trace + [InInt(v)];
        case JMP => ip := arg;
        case JMP_IF_FALSE =>
          var v := PopInteger();
          if v.None? {
            Error(TYPE_MISMATCH);
          } else if v.value == 0 {
            ip := arg;
          }
        case NATIVE_CALL => Native(m, arg);
        case PRINT => Show();
        case PRINT_INT => Show();
        case PRINT_STR => Show();
        case ADD => Operate(Add);
        case SUB => Operate(Sub);
        case MUL => Operate(Mul);
        case DIV => Operate(Div);
        case EQ => Operate(Eq);
        case NE => Operate(Ne);
        case LT => Operate(Lt);
        case GT => Operate(Gt);
        case LE => Operate(Le);
        case GE => Operate(Ge);
      }
    }

    method Show()
      requires Valid()
      modifies this`sp, this`trace, this`status
      ensures Valid() && Abs() == Output(old(Abs()))
    {
      var v := Pop();
      if v.None? {
        Error(UNDERFLOW);
        return;
      }
      trace := trace + [PrintEvent(v.value)];
    }

    // The first `limit` instructions of a run, or all of it when it ends before.
    method Run(m: Machine, limit: nat)
      requires Valid() && Abs() == START && Steps(m, START, limit).status != Crashed
      modifies this, stack, vars
      ensures Valid() && Abs() == Steps(m, START, limit)
    {
      var n := 0;
      while n < limit && status == Running
        invariant n <= limit && Valid() && Abs() == Steps(m, START, n)
      {
        StepsMonotone(m, START, n + 1, limit);
        Next(m);
        n := n + 1;
      }
      StepsMonotone(m, START, n, limit);
    }
  }
}
