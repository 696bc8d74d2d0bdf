// Abstract syntax of Lelya programs, as the one-pass compiler understands them,
// together with the limits the compiler and the VM impose on a program.
module LelyaSyntax {
  import opened NawBase

  const MAX_CODE := 1024
  const MAX_VARS := 64
  const MAX_STRINGS := 64
  const MAX_STRING_LEN := 128
  const MAX_VAR_NAME_LEN := 16
  const MAX_LOOP_DEPTH := 8
  const MAX_LOOP_JUMPS := 32
  const MAX_NATIVE_ARGS := 3
  const STACK_SIZE := 256

  datatype BinOp = Add | Sub | Mul | Div | Eq | Ne | Lt | Gt | Le | Ge

  datatype Expr =
    | Num(n: int)
    | Str(s: string)
    | Var(x: string)
    | Bin(op: BinOp, left: Expr, right: Expr)
    | Native(id: nat, args: seq<string>)

  datatype Stmt =
    | Skip
    | Print(e: Expr)
    | Assign(x: string, e: Expr)
    | Read(x: string)
    | Break
    | Continue
    | If(cond: Expr, thn: Stmt)
    | IfElse(cond: Expr, thn: Stmt, els: Stmt)
    | While(cond: Expr, body: Stmt)
    | Seq(first: Stmt, second: Stmt)

  // The native function of a name, -1 for any other name.
  const NATIVE_COUNT := 15

  function NativeId(name: string): (id: int)
    ensures -1 <= id < NATIVE_COUNT
  {
    if name == "math_eval" then 0
    else if name == "math_add" then 1
    else if name == "math_sub" then 2
    else if name == "math_mul" then 3
    else if name == "math_div" then 4
    else if name == "math_pow" then 5
    else if name == "math_sqrt" then 6
    else if name == "math_sin" then 7
    else if name == "math_cos" then 8
    else if name == "math_tan" then 9
    else if name == "math_abs" then 10
    else if name == "math_arg" then 11
    else if name == "math_conj" then 12
    else if name == "math_norm" then 13
    else if name == "math_quad" then 14
    else -1
  }

  // The number of arguments the VM pops for a native id, -1 for an unknown id.
  function NativeArity(id: int): int {
    if id == 0 || 6 <= id <= 13 then 1
    else if 1 <= id <= 5 then 2
    else if id == 14 then 3
    else -1
  }

  // The arithmetic of a 32-bit two's-complement int.
  function Wrap32(v: int): int {
    (v + 0x8000_0000) % 0x1_0000_0000 - 0x8000_0000
  }

  // C's division truncates toward zero.
  function TruncDiv(a: int, b: int): int
    requires b != 0
  {
    if a >= 0 then a / b else -((-a) / b)
  }

  // The one arithmetic that the VM and the reference interpreter share; None is a type mismatch
  // (the VM reports a division by zero as one).
  function Arith(op: BinOp, a: int, b: int): Option<int> {
    match op
    case Add => Some(Wrap32(a + b))
    case Sub => Some(Wrap32(a - b))
    case Mul => Some(Wrap32(a * b))
    case Div => if b == 0 then None else Some(Wrap32(TruncDiv(a, b)))
    case Eq => Some(if a == b then 1 else 0)
    case Ne => Some(if a != b then 1 else 0)
    case Lt => Some(if a < b then 1 else 0)
    case Gt => Some(if a > b then 1 else 0)
    case Le => Some(if a <= b then 1 else 0)
    case Ge => Some(if a >= b then 1 else 0)
  }

  // The number of operand stack slots that evaluating e needs.
  function Depth(e: Expr): (d: nat)
    ensures d >= 1
  {
    match e
    case Bin(_, l, r) => Max(Depth(l), 1 + Depth(r))
    case Native(_, args) => if |args| == 0 then 1 else |args|
    case _ => 1
  }

  // Every native call passes as many arguments as the VM pops, and fits the operand stack.
  predicate RunnableExpr(e: Expr)
  {
    Depth(e) <= STACK_SIZE && Arities(e)
  }

  predicate Arities(e: Expr) {
    match e
    case Bin(_, l, r) => Arities(l) && Arities(r)
    case Native(id, args) => NativeArity(id) == |args|
    case _ => true
  }

  predicate Runnable(s: Stmt) {
    match s
    case Print(e) => RunnableExpr(e)
    case Assign(_, e) => RunnableExpr(e)
    case If(c, t) => RunnableExpr(c) && Runnable(t)
    case IfElse(c, t, f) => RunnableExpr(c) && Runnable(t) && Runnable(f)
    case While(c, b) => RunnableExpr(c) && Runnable(b)
    case Seq(s1, s2) => Runnable(s1) && Runnable(s2)
    case _ => true
  }

  // No break or continue outside a loop.
  predicate JumpFree(s: Stmt) {
    match s
    case Break => false
    case Continue => false
    case If(_, t) => JumpFree(t)
    case IfElse(_, t, f) => JumpFree(t) && JumpFree(f)
    case Seq(s1, s2) => JumpFree(s1) && JumpFree(s2)
    case _ => true
  }
}
