// What a Lelya program means: a direct interpreter of its abstract syntax. Variables are found by
// name; loops are bounded by fuel, and running out of it says how far the run had got.
module LelyaSemantics {
  import opened LelyaSyntax
  import opened LelyaVm

  datatype World = World(native: (int, seq<string>) -> string, input: nat -> int)

  datatype Memory = Memory(env: map<string, int>, consumed: nat, trace: seq<Event>)

  const EMPTY := Memory(map[], 0, [])

  function Lookup(env: map<string, int>, x: string): int {
    if x in env then env[x] else 0
  }

  datatype Result = Val(v: Value) | Err(message: string)

  function Eval(e: Expr, env: map<string, int>, w: World): Result {
    match e
    case Num(n) => Val(IntV(n))
    case Str(s) => Val(StrV(s))
    case Var(x) => Val(IntV(Lookup(env, x)))
    case Bin(op, l, r) =>
      var a := Eval(l, env, w);
      if a.Err? then a
      else
        var b := Eval(r, env, w);
        if b.Err? then b else Operate(op, a.v, b.v)
    case Native(id, args) => Val(StrV(w.native(id, args)))
  }

  function Operate(op: BinOp, a: Value, b: Value): Result {
    if a.StrV? || b.StrV? then Err(TYPE_MISMATCH)
    else
      match Arith(op, a.n, b.n)
      case None => Err(TYPE_MISMATCH)
      case Some(v) => Val(IntV(v))
  }

  // The value of an expression that must be an integer.
  function EvalInt(e: Expr, env: map<string, int>, w: World): Result {
    var v := Eval(e, env, w);
    if v.Val? && v.v.StrV? then Err(TYPE_MISMATCH) else v
  }

  // How running a statement ends.
  datatype Outcome =
    | Normal(mem: Memory)
    | Broke(mem: Memory)
    | Continued(mem: Memory)
    | Stopped(mem: Memory)
    | Timeout(mem: Memory)

  function Abort(mem: Memory, message: string): Outcome {
    Stopped(mem.(trace := mem.trace + [OutError(message)]))
  }

  function Run(s: Stmt, mem: Memory, w: World, fuel: nat): Outcome
    decreases fuel, s
  {
    match s
    case Skip => Normal(mem)
    case Print(e) =>
      (match Eval(e, mem.env, w)
       case Err(msg) => Abort(mem, msg)
       case Val(v) => Normal(mem.(trace := mem.trace + [PrintEvent(v)])))
    case Assign(x, e) =>
      (match EvalInt(e, mem.env, w)
       case Err(msg) => Abort(mem, msg)
       case Val(v) => Normal(mem.(env := mem.env[x := v.n])))
    case Read(x) =>
      var v := w.input(mem.consumed);
      Normal(Memory(mem.env[x := v], mem.consumed + 1, mem.trace + [InInt(v)]))
    case Break => Broke(mem)
    case Continue => Continued(mem)
    case If(c, b) =>
      (match EvalInt(c, mem.env, w)
       case Err(msg) => Abort(mem, msg)
       case Val(v) => if v.n == 0 then Normal(mem) else Run(b, mem, w, fuel))
    case IfElse(c, b, f) =>
      (match EvalInt(c, mem.env, w)
       case Err(msg) => Abort(mem, msg)
       case Val(v) => if v.n == 0 then Run(f, mem, w, fuel) else Run(b, mem, w, fuel))
    case While(c, b) =>
      if fuel == 0 then Timeout(mem)
      else
        (match EvalInt(c, mem.env, w)
         case Err(msg) => Abort(mem, msg)
         case Val(v) =>
           if v.n == 0 then Normal(mem)
           else
             var out := Run(b, mem, w, fuel);
             if out.Broke? then Normal(out.mem)
             else if out.Normal? || out.Continued? then Run(s, out.mem, w, fuel - 1)
             else out)
    case Seq(s1, s2) =>
      var out := Run(s1, mem, w, fuel);
      if out.Normal? then Run(s2, out.mem, w, fuel) else out
  }

  // More fuel changes nothing but a run that ran out of it.
  lemma {:induction false} FuelMonotone(s: Stmt, mem: Memory, w: World, f: nat, g: nat)
    requires f <= g && !Run(s, mem, w, f).Timeout?
    ensures Run(s, mem, w, g) == Run(s, mem, w, f)
    decreases f, s
  {
    match s
    case If(c, b) =>
      var v := EvalInt(c, mem.env, w);
      if v.Val? && v.v.n != 0 { FuelMonotone(b, mem, w, f, g); }
    case IfElse(c, b, e) =>
      var v := EvalInt(c, mem.env, w);
      if v.Val? { FuelMonotone(if v.v.n != 0 then b else e, mem, w, f, g); }
    case While(c, b) =>
      var v := EvalInt(c, mem.env, w);
      if f > 0 && v.Val? && v.v.n != 0 {
        FuelMonotone(b, mem, w, f, g);
        var out := Run(b, mem, w, f);
        if out.Normal? || out.Continued? { FuelMonotone(s, out.mem, w, f - 1, g - 1); }
      }
    case Seq(s1, s2) =>
      FuelMonotone(s1, mem, w, f, g);
      var out := Run(s1, mem, w, f);
      if out.Normal? { FuelMonotone(s2, out.mem, w, f, g); }
    case _ =>
  }
}
