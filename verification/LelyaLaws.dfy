// What the statements of Lelya are to each other, said without the interpreter's cases.
module LelyaLaws {
  import opened LelyaSyntax
  import opened LelyaCode
  import opened LelyaSemantics
  import opened LelyaCorrectness
  import LelyaVm

  // The two run alike.
  ghost predicate Alike(s: Stmt, t: Stmt) {
    forall mem: Memory, w: World, fuel: nat :: Run(s, mem, w, fuel) == Run(t, mem, w, fuel)
  }

  // A variable holds 0 until it is assigned, then what was last assigned to it, and no other changes.
  lemma Variables(x: string, y: string, e: Expr, mem: Memory, w: World, fuel: nat)
    ensures Eval(Var(x), EMPTY.env, w) == Val(LelyaVm.IntV(0))
    ensures
      var out := Run(Assign(x, e), mem, w, fuel);
      out.Normal? ==>
        && Eval(Var(x), out.mem.env, w) == Eval(e, mem.env, w)
        && (y != x ==> Eval(Var(y), out.mem.env, w) == Eval(Var(y), mem.env, w))
        && out.mem.trace == mem.trace && out.mem.consumed == mem.consumed
  {
  }

  predicate Governs(s: Stmt, c: Expr) { (s.If? || s.IfElse? || s.While?) && s.cond == c }

  // The machine computes with numbers only: an operation on a text stops the program, as does a text that is
  // assigned or is a condition, and a division by zero; but a text can be printed.
  lemma TextsAreNoNumbers(s: Stmt, l: Expr, r: Expr, op: BinOp, mem: Memory, w: World, fuel: nat)
    requires fuel > 0 && Eval(l, mem.env, w).Val? && Eval(r, mem.env, w).Val?
    ensures
      var a, b := Eval(l, mem.env, w).v, Eval(r, mem.env, w).v;
      Eval(Bin(op, l, r), mem.env, w).Err? <==> a.StrV? || b.StrV? || (op == Div && b.n == 0)
    ensures
      Eval(l, mem.env, w).v.StrV? && ((s.Assign? && s.e == l) || Governs(s, l)) ==>
        Run(s, mem, w, fuel) == Stopped(mem.(trace := mem.trace + [LelyaVm.OutError("VM: type mismatch")]))
    ensures
      Eval(l, mem.env, w).v.StrV? ==>
        Run(Print(l), mem, w, fuel) == Normal(mem.(trace := mem.trace + [LelyaVm.OutStr(Eval(l, mem.env, w).v.s)]))
  {
  }

  // An if without an else has an empty one.
  lemma NoElse(c: Expr, b: Stmt)
    ensures Alike(If(c, b), IfElse(c, b, Skip))
  {
  }

  // Branches change places when the condition is compared with 0.
  lemma Branches(c: Expr, b: Stmt, f: Stmt, mem: Memory, w: World, fuel: nat)
    requires EvalInt(c, mem.env, w).Val?
    ensures Run(IfElse(Bin(Eq, c, Num(0)), b, f), mem, w, fuel) == Run(IfElse(c, f, b), mem, w, fuel)
  {
    assert Eval(Num(0), mem.env, w) == Val(LelyaVm.IntV(0));
  }

  lemma Grouping(a: Stmt, b: Stmt, c: Stmt)
    ensures Alike(Seq(Seq(a, b), c), Seq(a, Seq(b, c)))
    ensures Alike(Seq(Skip, a), a) && Alike(Seq(a, Skip), a)
  {
    hide Run;
    forall mem: Memory, w: World, fuel: nat
      ensures Run(Seq(Seq(a, b), c), mem, w, fuel) == Run(Seq(a, Seq(b, c)), mem, w, fuel)
      ensures Run(Seq(Skip, a), mem, w, fuel) == Run(a, mem, w, fuel) == Run(Seq(a, Skip), mem, w, fuel)
    {
      Chain(a, b, mem, w, fuel);
      Chain(Seq(a, b), c, mem, w, fuel);
      Chain(a, Seq(b, c), mem, w, fuel);
      Chain(b, c, Run(a, mem, w, fuel).mem, w, fuel);
      Nothing(mem, w, fuel);
      Nothing(Run(a, mem, w, fuel).mem, w, fuel);
      Chain(Skip, a, mem, w, fuel);
      Chain(a, Skip, mem, w, fuel);
    }
  }

  lemma Chain(a: Stmt, b: Stmt, mem: Memory, w: World, fuel: nat)
    ensures
      var out := Run(a, mem, w, fuel);
      Run(Seq(a, b), mem, w, fuel) == if out.Normal? then Run(b, out.mem, w, fuel) else out
  {
    hide EvalInt, Eval, Operate, Abort, LelyaVm.PrintEvent;
  }

  lemma Nothing(mem: Memory, w: World, fuel: nat)
    ensures Run(Skip, mem, w, fuel) == Normal(mem)
  {
  }

  lemma Jumps(mem: Memory, w: World, fuel: nat)
    ensures Run(Break, mem, w, fuel) == Broke(mem) && Run(Continue, mem, w, fuel) == Continued(mem)
  {
  }

  // A loop that is not left by a break ends when its condition is 0.
  lemma {:induction false} LoopEnds(c: Expr, b: Stmt, mem: Memory, w: World, fuel: nat)
    requires JumpCount(b, true) == 0 && Run(While(c, b), mem, w, fuel).Normal?
    ensures EvalInt(c, Run(While(c, b), mem, w, fuel).mem.env, w) == Val(LelyaVm.IntV(0))
    decreases fuel
  {
    NoBreak(b, mem, w, fuel);
    var v := EvalInt(c, mem.env, w);
    if v.Val? && v.v.n != 0 {
      LoopEnds(c, b, Run(b, mem, w, fuel).mem, w, fuel - 1);
    }
  }

  lemma {:induction false} NoBreak(s: Stmt, mem: Memory, w: World, fuel: nat)
    requires JumpCount(s, true) == 0
    ensures !Run(s, mem, w, fuel).Broke?
    decreases fuel, s
  {
    match s
    case If(_, b) => NoBreak(b, mem, w, fuel);
    case IfElse(_, b, f) =>
      NoBreak(b, mem, w, fuel);
      NoBreak(f, mem, w, fuel);
    case While(c, b) =>
      if fuel > 0 { LoopNotBroken(c, b, mem, w, fuel); }
    case Seq(s1, s2) =>
      NoBreak(s1, mem, w, fuel);
      var out := Run(s1, mem, w, fuel);
      if out.Normal? { NoBreak(s2, out.mem, w, fuel); }
    case _ =>
  }

  // A break leaves one loop only.
  lemma {:induction false} LoopNotBroken(c: Expr, b: Stmt, mem: Memory, w: World, fuel: nat)
    ensures !Run(While(c, b), mem, w, fuel).Broke? && !Run(While(c, b), mem, w, fuel).Continued?
    decreases fuel
  {
    if fuel > 0 {
      var out := Run(b, mem, w, fuel);
      if out.Normal? || out.Continued? { LoopNotBroken(c, b, out.mem, w, fuel - 1); }
    }
  }

  // A continue at the end of a loop's body changes nothing, and one at its start leaves the rest out.
  lemma {:induction false} Continues(c: Expr, b: Stmt, mem: Memory, w: World, fuel: nat)
    ensures Run(While(c, Seq(b, Continue)), mem, w, fuel) == Run(While(c, b), mem, w, fuel)
    ensures Run(While(c, Seq(Continue, b)), mem, w, fuel) == Run(While(c, Skip), mem, w, fuel)
    decreases fuel
  {
    if fuel > 0 {
      var out := Run(b, mem, w, fuel);
      Chain(b, Continue, mem, w, fuel);
      Chain(Continue, b, mem, w, fuel);
      Nothing(mem, w, fuel);
      Jumps(mem, w, fuel);
      Jumps(out.mem, w, fuel);
      Continues(c, b, out.mem, w, fuel - 1);
      Continues(c, b, mem, w, fuel - 1);
    }
  }

  // A body that breaks at its end is run as an if would run it.
  lemma Breaks(c: Expr, b: Stmt, mem: Memory, w: World, fuel: nat)
    requires fuel > 0 && JumpFree(b)
    ensures Run(While(c, Seq(b, Break)), mem, w, fuel) == Run(If(c, b), mem, w, fuel)
  {
    NoStrayJumps(b, mem, w, fuel);
    var out := Run(b, mem, w, fuel);
    Chain(b, Break, mem, w, fuel);
    Jumps(out.mem, w, fuel);
  }
}
