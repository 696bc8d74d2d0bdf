// The operand stack has the same height whenever a run passes the same instruction: each expression
// nets one value, and between statements the stack is empty, whatever jumps led there.
module LelyaStack {
  import opened LelyaSyntax
  import opened LelyaCode
  import opened LelyaVm
  import opened LelyaCorrectness

  // The number of values on the stack before instruction k of an expression.
  function ExprHeight(e: Expr, k: nat): nat {
    match e
    case Bin(_, l, r) =>
      if k < ExprSize(l) then ExprHeight(l, k)
      else if k < ExprSize(l) + ExprSize(r) then 1 + ExprHeight(r, k - ExprSize(l))
      else 2
    case Native(_, args) => if k <= |args| then k else 0
    case _ => 0
  }

  function GuardHeight(c: Expr, k: nat): nat {
    if k < ExprSize(c) then ExprHeight(c, k) else 1
  }

  // The number of values on the stack before instruction k of a statement, and after its last one.
  function StmtHeight(s: Stmt, k: nat): nat {
    match s
    case Print(e) => if k <= ExprSize(e) then GuardHeight(e, k) else 0
    case Assign(_, e) => if k <= ExprSize(e) then GuardHeight(e, k) else 0
    case If(c, b) => if k <= ExprSize(c) then GuardHeight(c, k) else StmtHeight(b, k - ExprSize(c) - 1)
    case IfElse(c, b, f) =>
      var start := ExprSize(c) + 1;
      var other := start + StmtSize(b) + 1;
      if k < start then GuardHeight(c, k)
      else if k < other - 1 then StmtHeight(b, k - start)
      else if k < other then 0
      else StmtHeight(f, k - other)
    case While(c, b) =>
      var start := ExprSize(c) + 1;
      if k < start then GuardHeight(c, k)
      else if k < start + StmtSize(b) then StmtHeight(b, k - start)
      else 0
    case Seq(s1, s2) => if k < StmtSize(s1) then StmtHeight(s1, k) else StmtHeight(s2, k - StmtSize(s1))
    case _ => 0
  }

  lemma {:induction false} StartsEmpty(e: Expr)
    ensures ExprHeight(e, 0) == 0
  {
    if e.Bin? { StartsEmpty(e.left); }
  }

  lemma EndsEmpty(s: Stmt)
    ensures StmtHeight(s, 0) == 0
    ensures forall k :: k >= StmtSize(s) ==> StmtHeight(s, k) == 0
  {
    hide StmtHeight, StmtSize;
    BeginsEmpty(s);
    forall k | k >= StmtSize(s) ensures StmtHeight(s, k) == 0 { EmptyPast(s, k); }
  }

  lemma {:induction false} BeginsEmpty(s: Stmt)
    ensures StmtHeight(s, 0) == 0
  {
    hide ExprHeight;
    match s
    case Print(e) => StartsEmpty(e);
    case Assign(_, e) => StartsEmpty(e);
    case If(c, b) => StartsEmpty(c);
    case IfElse(c, b, f) => StartsEmpty(c);
    case While(c, b) => StartsEmpty(c);
    case Seq(s1, s2) =>
      BeginsEmpty(s1);
      BeginsEmpty(s2);
    case _ =>
  }

  lemma {:induction false} EmptyPast(s: Stmt, k: nat)
    requires k >= StmtSize(s)
    ensures StmtHeight(s, k) == 0
  {
    hide ExprHeight;
    match s
    case If(c, b) => EmptyPast(b, k - ExprSize(c) - 1);
    case IfElse(c, b, f) => EmptyPast(f, k - (ExprSize(c) + 1 + StmtSize(b) + 1));
    case Seq(s1, s2) => EmptyPast(s2, k - StmtSize(s1));
    case _ =>
  }

  // What an instruction that does not jump needs on the stack, and what it leaves.
  predicate Straight(i: Instruction, before: nat, after: nat) {
    match i.op
    case PUSH_INT => after == before + 1 <= STACK_SIZE
    case PUSH_STR => after == before + 1 <= STACK_SIZE
    case LOAD_VAR => after == before + 1 <= STACK_SIZE
    case STORE_VAR => before == 1 && after == 0
    case READ_INT => before == after == 0
    case PRINT => before == 1 && after == 0
    case NATIVE_CALL => 0 < NativeArity(i.arg) <= before <= STACK_SIZE && after == before - NativeArity(i.arg) + 1
    case HALT => false
    case JMP => false
    case JMP_IF_FALSE => false
    case PRINT_INT => false
    case PRINT_STR => false
    case _ => 2 <= before <= STACK_SIZE && after == before - 1
  }

  lemma StraightStep(m: Machine, st: State, i: Instruction, after: nat)
    requires st.status == Running && Straight(i, |st.stack|, after)
    ensures var st' := Execute(m, st, i.op, i.arg);
      st'.status == Running ==> |st'.stack| == after && st'.ip == st.ip
  {
    hide Arith;
    if i.op == NATIVE_CALL { PopStringsLength(st, NativeArity(i.arg), []); }
  }

  // ----- expressions -----

  // The height after instruction k of an expression: that of the next one, or 1 after the last.
  function Next(e: Expr, k: nat): nat {
    if k + 1 < ExprSize(e) then ExprHeight(e, k + 1) else 1
  }

  // Every instruction of an expression finds what it needs above `base` values.
  lemma {:induction false} ExprFlow(e: Expr, t: Tables, k: nat, base: nat, before: nat, after: nat)
    requires k < ExprSize(e) && Arities(e) && base + Depth(e) <= STACK_SIZE
    requires before == base + ExprHeight(e, k) && after == base + Next(e, k)
    ensures Straight(GenExpr(e, t)[k], before, after)
    decreases e
  {
    hide Straight, GenExpr, Next, InternExpr, ExprHeight, ExprSize, Depth, Arities;
    if e.Bin? {
      BinFlow(e, t, k);
      BinParts(e, k);
      var l, r := e.left, e.right;
      if k < ExprSize(l) {
        ExprFlow(l, t, k, base, before, after);
      } else if k < ExprSize(l) + ExprSize(r) {
        ExprFlow(r, InternExpr(t, l), k - ExprSize(l), base + 1, before, after);
      } else {
        OperationFlow(e, base, before, after);
      }
    } else {
      LeafFlow(e, t, k, base);
    }
  }

  lemma BinParts(e: Expr, k: nat)
    requires e.Bin?
    ensures Depth(e) >= Depth(e.left) && Depth(e) >= 1 + Depth(e.right)
    ensures Arities(e) ==> Arities(e.left) && Arities(e.right)
    ensures ExprSize(e) == ExprSize(e.left) + ExprSize(e.right) + 1
    ensures ExprHeight(e, k) ==
      if k < ExprSize(e.left) then ExprHeight(e.left, k)
      else if k < ExprSize(e.left) + ExprSize(e.right) then 1 + ExprHeight(e.right, k - ExprSize(e.left))
      else 2
  {
  }

  lemma OperationFlow(e: Expr, base: nat, before: nat, after: nat)
    requires e.Bin? && base + Depth(e) <= STACK_SIZE && before == base + 2
    requires after == base + Next(e, ExprSize(e) - 1)
    ensures Straight(Instruction(OpOf(e.op), 0), before, after)
  {
  }

  lemma LeafFlow(e: Expr, t: Tables, k: nat, base: nat)
    requires !e.Bin? && k < ExprSize(e) && Arities(e) && base + Depth(e) <= STACK_SIZE
    ensures Straight(GenExpr(e, t)[k], base + ExprHeight(e, k), base + Next(e, k))
  {
    if e.Native? && k < |e.args| { PushArgsAt(e.args, t.strs, k); }
    hide PushArgs, InternAll, Intern, IndexOf;
  }

  lemma BinFlow(e: Expr, t: Tables, k: nat)
    requires e.Bin? && k < ExprSize(e)
    ensures
      var l, r := e.left, e.right;
      && (k < ExprSize(l) ==> GenExpr(e, t)[k] == GenExpr(l, t)[k] && Next(e, k) == Next(l, k))
      && (ExprSize(l) <= k < ExprSize(l) + ExprSize(r) ==>
          var j := k - ExprSize(l);
          GenExpr(e, t)[k] == GenExpr(r, InternExpr(t, l))[j] && Next(e, k) == 1 + Next(r, j))
      && (k == ExprSize(l) + ExprSize(r) ==> GenExpr(e, t)[k] == Instruction(OpOf(e.op), 0))
  {
    hide GenExpr, InternExpr, Next, ExprHeight;
    BinCode(e, t, k);
    BinNext(e, k);
  }

  lemma BinCode(e: Expr, t: Tables, k: nat)
    requires e.Bin? && k < ExprSize(e)
    ensures
      var l, r := e.left, e.right;
      && (k < ExprSize(l) ==> GenExpr(e, t)[k] == GenExpr(l, t)[k])
      && (ExprSize(l) <= k < ExprSize(l) + ExprSize(r) ==>
          GenExpr(e, t)[k] == GenExpr(r, InternExpr(t, l))[k - ExprSize(l)])
      && (k == ExprSize(l) + ExprSize(r) ==> GenExpr(e, t)[k] == Instruction(OpOf(e.op), 0))
  {
    GenBin(e.op, e.left, e.right, t);
    hide GenExpr, InternExpr;
    var g1, g2 := GenExpr(e.left, t), GenExpr(e.right, InternExpr(t, e.left));
    Pick(g1, g2, [Instruction(OpOf(e.op), 0)], k);
  }

  lemma Pick<T>(a: seq<T>, b: seq<T>, c: seq<T>, k: nat)
    requires k < |a| + |b| + |c|
    ensures (a + b + c)[k] == if k < |a| then a[k] else if k < |a| + |b| then b[k - |a|] else c[k - |a| - |b|]
  {
  }

  lemma BinNext(e: Expr, k: nat)
    requires e.Bin? && k < ExprSize(e)
    ensures k < ExprSize(e.left) ==> Next(e, k) == Next(e.left, k)
    ensures ExprSize(e.left) <= k < ExprSize(e.left) + ExprSize(e.right) ==>
      Next(e, k) == 1 + Next(e.right, k - ExprSize(e.left))
  {
    StartsEmpty(e.right);
  }

  lemma {:induction false} PushArgsAt(args: seq<string>, t: seq<string>, k: nat)
    requires k < |args|
    ensures PushArgs(args, t)[k].op == PUSH_STR
  {
    if k < |args| - 1 { PushArgsAt(args[..|args| - 1], t, k); }
  }

  // ----- statements -----

  // The jump target p lies in s placed at a, where the stack is empty, or at an exit of s.
  predicate Lands(s: Stmt, a: nat, x: Exits, p: int) {
    p == x.brk || p == x.cont || (a <= p <= a + StmtSize(s) && StmtHeight(s, p - a) == 0)
  }

  // Instruction k of s jumps to where its height is expected, or keeps the stack at the heights assigned to s.
  // What does not jump does so when the native calls of s have the right arity and its expressions fit.
  predicate Keeps(i: Instruction, s: Stmt, a: nat, x: Exits, k: nat) {
    var before, after := StmtHeight(s, k), StmtHeight(s, k + 1);
    if i.op == JMP then before == 0 && Lands(s, a, x, i.arg)
    else if i.op == JMP_IF_FALSE then before == 1 && after == 0 && Lands(s, a, x, i.arg)
    else Runnable(s) ==> Straight(i, before, after)
  }

  // The instructions of g, at `from` in s, keep the heights of s.
  ghost predicate AllKeep(g: seq<Instruction>, s: Stmt, a: nat, x: Exits, from: nat) {
    forall k :: 0 <= k < |g| ==> Keeps(g[k], s, a, x, from + k)
  }

  lemma AllKeepConcat(g: seq<Instruction>, h: seq<Instruction>, s: Stmt, a: nat, x: Exits, from: nat, mid: nat)
    requires AllKeep(g, s, a, x, from) && AllKeep(h, s, a, x, mid) && mid == from + |g|
    ensures AllKeep(g + h, s, a, x, from)
  {
    hide Keeps;
    forall k | 0 <= k < |g + h| ensures Keeps((g + h)[k], s, a, x, from + k) {
      if k >= |g| { assert Keeps(h[k - |g|], s, a, x, mid + (k - |g|)); }
    }
  }

  lemma {:induction false} StmtFlow(s: Stmt, a: nat, x: Exits, t: Tables)
    ensures AllKeep(GenStmt(s, a, x.brk, x.cont, t), s, a, x, 0)
    decreases s
  {
    hide AllKeep, GenStmt, InternStmt;
    match s
    case Print(e) => UseFlow(s, a, x, t);
    case Assign(_, e) => UseFlow(s, a, x, t);
    case If(c, b) =>
      StmtFlow(b, a + ExprSize(c) + 1, x, InternExpr(t, c));
      IfFlow(s, a, x, t);
    case IfElse(c, b, f) =>
      var t1 := InternExpr(t, c);
      StmtFlow(b, a + ExprSize(c) + 1, x, t1);
      StmtFlow(f, a + ExprSize(c) + 1 + StmtSize(b) + 1, x, InternStmt(t1, b));
      IfElseFlow(s, a, x, t);
    case While(c, b) =>
      var start := ExprSize(c) + 1;
      StmtFlow(b, a + start, Exits(a + start + StmtSize(b) + 1, a), InternExpr(t, c));
      WhileFlow(s, a, x, t);
    case Seq(s1, s2) =>
      StmtFlow(s1, a, x, t);
      StmtFlow(s2, a + StmtSize(s1), x, InternStmt(t, s1));
      SeqFlow(s, a, x, t);
    case _ => JumpFlow(s, a, x, t);
  }

  lemma JumpFlow(s: Stmt, a: nat, x: Exits, t: Tables)
    requires s.Read? || s.Break? || s.Continue? || s.Skip?
    ensures AllKeep(GenStmt(s, a, x.brk, x.cont, t), s, a, x, 0)
  {
  }

  lemma UseFlow(s: Stmt, a: nat, x: Exits, t: Tables)
    requires s.Print? || s.Assign?
    ensures AllKeep(GenStmt(s, a, x.brk, x.cont, t), s, a, x, 0)
  {
    hide GenExpr, InternExpr, ExprHeight;
    forall k | 0 <= k < StmtSize(s) ensures Keeps(GenStmt(s, a, x.brk, x.cont, t)[k], s, a, x, 0 + k) {
      if k < ExprSize(s.e) {
        NoJump(s.e, t, k);
        if Runnable(s) { ExprFlow(s.e, t, k, 0, ExprHeight(s.e, k), Next(s.e, k)); }
        assert GenStmt(s, a, x.brk, x.cont, t)[k] == GenExpr(s.e, t)[k];
      }
    }
  }

  // The code of an expression has no jumps.
  lemma {:induction false} NoJump(e: Expr, t: Tables, k: nat)
    requires k < ExprSize(e)
    ensures GenExpr(e, t)[k].op != JMP && GenExpr(e, t)[k].op != JMP_IF_FALSE
    decreases e
  {
    if e.Bin? {
      hide GenExpr, InternExpr;
      var n := ExprSize(e.left);
      BinCode(e, t, k);
      if k < n {
        NoJump(e.left, t, k);
      } else if k < n + ExprSize(e.right) {
        NoJump(e.right, InternExpr(t, e.left), k - n);
      }
    } else if e.Native? && k < |e.args| {
      PushArgsAt(e.args, t.strs, k);
      hide PushArgs, InternAll;
    }
  }

  // The instructions of a guard, and the fall-through past it.
  lemma GuardFlow(c: Expr, t: Tables, target: int, k: nat)
    requires k <= ExprSize(c)
    ensures k < ExprSize(c) ==> Guard(c, t, target)[k].op != JMP && Guard(c, t, target)[k].op != JMP_IF_FALSE
    ensures k < ExprSize(c) && RunnableExpr(c) ==>
      Straight(Guard(c, t, target)[k], GuardHeight(c, k), GuardHeight(c, k + 1))
    ensures k == ExprSize(c) ==> Guard(c, t, target)[k] == Instruction(JMP_IF_FALSE, target)
  {
    hide GenExpr, ExprHeight, Straight;
    if k < ExprSize(c) {
      NoJump(c, t, k);
      if RunnableExpr(c) { ExprFlow(c, t, k, 0, ExprHeight(c, k), Next(c, k)); }
    }
  }

  predicate SameHeight(part: Stmt, s: Stmt, off: nat, j: nat) { StmtHeight(s, off + j) == StmtHeight(part, j) }

  // The heights of s, from instruction off on, are those of one of its parts.
  ghost predicate Inside(part: Stmt, s: Stmt, off: nat) {
    && off + StmtSize(part) <= StmtSize(s) && (Runnable(s) ==> Runnable(part))
    && forall j: nat :: j <= StmtSize(part) ==> SameHeight(part, s, off, j)
  }

  lemma PartsInside(s: Stmt)
    ensures s.If? ==> Inside(s.thn, s, ExprSize(s.cond) + 1)
    ensures s.IfElse? ==> Inside(s.thn, s, ExprSize(s.cond) + 1)
    ensures s.IfElse? ==> Inside(s.els, s, ExprSize(s.cond) + 1 + StmtSize(s.thn) + 1)
    ensures s.While? ==> Inside(s.body, s, ExprSize(s.cond) + 1)
    ensures s.Seq? ==> Inside(s.first, s, 0) && Inside(s.second, s, StmtSize(s.first))
  {
    hide Inside;
    match s
    case If(c, b) => ThenInside(c, b);
    case IfElse(c, b, f) => ElseInside(c, b, f);
    case While(c, b) => BodyInside(c, b);
    case Seq(s1, s2) => SeqInside(s1, s2);
    case _ =>
  }

  lemma ThenInside(c: Expr, b: Stmt)
    ensures Inside(b, If(c, b), ExprSize(c) + 1)
  {
    hide SameHeight, StmtSize;
    IfTables(c, b, NO_TABLES);
    var off := ExprSize(c) + 1;
    forall j: nat | j <= StmtSize(b) ensures SameHeight(b, If(c, b), off, j) { ThenHeight(c, b, j); }
  }

  lemma ThenHeight(c: Expr, b: Stmt, j: nat)
    ensures SameHeight(b, If(c, b), ExprSize(c) + 1, j)
  {
  }

  lemma ElseInside(c: Expr, b: Stmt, f: Stmt)
    ensures Inside(b, IfElse(c, b, f), ExprSize(c) + 1)
    ensures Inside(f, IfElse(c, b, f), ExprSize(c) + 1 + StmtSize(b) + 1)
  {
    hide SameHeight, StmtSize;
    IfElseTables(c, b, f, NO_TABLES);
    var s, off, other := IfElse(c, b, f), ExprSize(c) + 1, ExprSize(c) + 1 + StmtSize(b) + 1;
    forall j: nat | j <= StmtSize(b) ensures SameHeight(b, s, off, j) { ElseHeight(c, b, f, j); }
    forall j: nat | j <= StmtSize(f) ensures SameHeight(f, s, other, j) { ElseHeight(c, b, f, j); }
  }

  lemma ElseHeight(c: Expr, b: Stmt, f: Stmt, j: nat)
    ensures j <= StmtSize(b) ==> SameHeight(b, IfElse(c, b, f), ExprSize(c) + 1, j)
    ensures SameHeight(f, IfElse(c, b, f), ExprSize(c) + 1 + StmtSize(b) + 1, j)
  {
    hide StmtHeight, StmtSize, ExprSize;
    EmptyPast(b, StmtSize(b));
    if j <= StmtSize(b) { IfElseHeight(c, b, f, ExprSize(c) + 1 + j); }
    IfElseHeight(c, b, f, ExprSize(c) + 1 + StmtSize(b) + 1 + j);
  }

  // The heights of an if with an else, past its condition.
  lemma IfElseHeight(c: Expr, b: Stmt, f: Stmt, k: nat)
    requires k > ExprSize(c)
    ensures
      var start := ExprSize(c) + 1;
      var other := start + StmtSize(b) + 1;
      StmtHeight(IfElse(c, b, f), k)
        == if k < other - 1 then StmtHeight(b, k - start) else if k < other then 0 else StmtHeight(f, k - other)
  {
    hide ExprHeight;
  }

  lemma BodyInside(c: Expr, b: Stmt)
    ensures Inside(b, While(c, b), ExprSize(c) + 1)
  {
    hide SameHeight, StmtSize;
    WhileTables(c, b, NO_TABLES);
    var off := ExprSize(c) + 1;
    forall j: nat | j <= StmtSize(b) ensures SameHeight(b, While(c, b), off, j) { BodyHeight(c, b, j); }
  }

  lemma BodyHeight(c: Expr, b: Stmt, j: nat)
    requires j <= StmtSize(b)
    ensures SameHeight(b, While(c, b), ExprSize(c) + 1, j)
  {
    EndsEmpty(b);
  }

  lemma SeqInside(s1: Stmt, s2: Stmt)
    ensures Inside(s1, Seq(s1, s2), 0) && Inside(s2, Seq(s1, s2), StmtSize(s1))
  {
    hide SameHeight, StmtSize;
    SeqTables(s1, s2, NO_TABLES);
    forall j: nat | j <= StmtSize(s1) ensures SameHeight(s1, Seq(s1, s2), 0, j) { SeqHeight(s1, s2, j); }
    forall j: nat | j <= StmtSize(s2) ensures SameHeight(s2, Seq(s1, s2), StmtSize(s1), j) { SeqHeight(s1, s2, j); }
  }

  lemma SeqHeight(s1: Stmt, s2: Stmt, j: nat)
    ensures j <= StmtSize(s1) ==> SameHeight(s1, Seq(s1, s2), 0, j)
    ensures SameHeight(s2, Seq(s1, s2), StmtSize(s1), j)
  {
    hide StmtHeight, StmtSize;
    EmptyPast(s1, StmtSize(s1));
    BeginsEmpty(s2);
    HeightOfSeq(s1, s2, j);
    HeightOfSeq(s1, s2, StmtSize(s1) + j);
  }

  lemma HeightOfSeq(s1: Stmt, s2: Stmt, k: nat)
    ensures StmtHeight(Seq(s1, s2), k)
      == if k < StmtSize(s1) then StmtHeight(s1, k) else StmtHeight(s2, k - StmtSize(s1))
  {
  }

  lemma PartLands(part: Stmt, y: Exits, s: Stmt, a: nat, x: Exits, off: nat, p: int)
    requires Inside(part, s, off) && Lands(part, a + off, y, p)
    requires Lands(s, a, x, y.brk) && Lands(s, a, x, y.cont)
    ensures Lands(s, a, x, p)
  {
    hide StmtHeight, StmtSize;
    if p != y.brk && p != y.cont {
      assert SameHeight(part, s, off, p - a - off);
    }
  }

  // An instruction that keeps the heights of a part keeps those of the whole, when the exits of the
  // part land in the whole.
  lemma PartKeeps(i: Instruction, part: Stmt, y: Exits, s: Stmt, a: nat, x: Exits, off: nat, k: nat)
    requires off <= k < off + StmtSize(part) && Keeps(i, part, a + off, y, k - off) && Inside(part, s, off)
    requires Lands(s, a, x, y.brk) && Lands(s, a, x, y.cont)
    ensures Keeps(i, s, a, x, k)
  {
    hide StmtHeight, StmtSize, Straight, Lands;
    assert SameHeight(part, s, off, k - off) && SameHeight(part, s, off, k - off + 1);
    if i.op == JMP || i.op == JMP_IF_FALSE { PartLands(part, y, s, a, x, off, i.arg); }
  }

  lemma PartAllKeep(g: seq<Instruction>, part: Stmt, y: Exits, s: Stmt, a: nat, x: Exits, off: nat, b: nat)
    requires AllKeep(g, part, b, y, 0) && b == a + off && |g| == StmtSize(part) && Inside(part, s, off)
    requires Lands(s, a, x, y.brk) && Lands(s, a, x, y.cont)
    ensures AllKeep(g, s, a, x, off)
  {
    hide Keeps, Inside, Lands, StmtSize;
    forall k | 0 <= k < |g| ensures Keeps(g[k], s, a, x, off + k) {
      assert Keeps(g[k], part, b, y, 0 + k);
      PartKeeps(g[k], part, y, s, a, x, off, off + k);
    }
  }

  // The guard of a conditional or a loop, whose jump goes to a place in it where the stack is empty.
  lemma GuardAllKeep(s: Stmt, t: Tables, a: nat, x: Exits, target: int)
    requires (s.If? || s.IfElse? || s.While?) && Lands(s, a, x, target)
    ensures AllKeep(Guard(s.cond, t, target), s, a, x, 0)
  {
    hide Guard, Keeps, Lands;
    forall k | 0 <= k < ExprSize(s.cond) + 1 ensures Keeps(Guard(s.cond, t, target)[k], s, a, x, 0 + k) {
      GuardKeeps(s, t, a, x, target, k);
    }
  }

  lemma GuardKeeps(s: Stmt, t: Tables, a: nat, x: Exits, target: int, k: nat)
    requires (s.If? || s.IfElse? || s.While?) && k <= ExprSize(s.cond) && Lands(s, a, x, target)
    ensures Keeps(Guard(s.cond, t, target)[k], s, a, x, k)
  {
    GuardFlow(s.cond, t, target, k);
    GuardHeights(s, k);
    hide StmtHeight, Guard, Lands, Straight, GuardHeight;
  }

  lemma GuardHeights(s: Stmt, k: nat)
    requires (s.If? || s.IfElse? || s.While?) && k <= ExprSize(s.cond)
    ensures StmtHeight(s, k) == GuardHeight(s.cond, k)
    ensures k < ExprSize(s.cond) ==> StmtHeight(s, k + 1) == GuardHeight(s.cond, k + 1)
    ensures k == ExprSize(s.cond) ==> StmtHeight(s, k + 1) == 0 && GuardHeight(s.cond, k) == 1
  {
    if s.If? { EndsEmpty(s.thn); }
    else if s.IfElse? { EndsEmpty(s.thn); EndsEmpty(s.els); }
    else { EndsEmpty(s.body); }
  }

  lemma LandsInside(s: Stmt, a: nat, x: Exits)
    ensures Lands(s, a, x, x.brk) && Lands(s, a, x, x.cont) && Lands(s, a, x, a) && Lands(s, a, x, a + StmtSize(s))
  {
    EndsEmpty(s);
  }

  lemma IfFlow(s: Stmt, a: nat, x: Exits, t: Tables)
    requires s.If?
    requires var start := a + ExprSize(s.cond) + 1;
      AllKeep(GenStmt(s.thn, start, x.brk, x.cont, InternExpr(t, s.cond)), s.thn, start, x, 0)
    ensures AllKeep(GenStmt(s, a, x.brk, x.cont, t), s, a, x, 0)
  {
    hide Guard, GenStmt, AllKeep, Lands, Inside, InternExpr, Runnable;
    GenIfIs(s.cond, s.thn, a, x.brk, x.cont, t);
    var off := ExprSize(s.cond) + 1;
    var g := Guard(s.cond, t, a + StmtSize(s));
    var body := GenStmt(s.thn, a + ExprSize(s.cond) + 1, x.brk, x.cont, InternExpr(t, s.cond));
    PartsInside(s);
    LandsInside(s, a, x);
    GuardAllKeep(s, t, a, x, a + StmtSize(s));
    PartAllKeep(body, s.thn, x, s, a, x, off, a + ExprSize(s.cond) + 1);
    AllKeepConcat(g, body, s, a, x, 0, off);
  }

  lemma SeqFlow(s: Stmt, a: nat, x: Exits, t: Tables)
    requires s.Seq?
    requires AllKeep(GenStmt(s.first, a, x.brk, x.cont, t), s.first, a, x, 0)
    requires AllKeep(GenStmt(s.second, a + StmtSize(s.first), x.brk, x.cont, InternStmt(t, s.first)),
                     s.second, a + StmtSize(s.first), x, 0)
    ensures AllKeep(GenStmt(s, a, x.brk, x.cont, t), s, a, x, 0)
  {
    hide GenStmt, AllKeep, Lands, Inside, InternStmt;
    GenSeqIs(s.first, s.second, a, x.brk, x.cont, t);
    var n := StmtSize(s.first);
    var g, h := GenStmt(s.first, a, x.brk, x.cont, t), GenStmt(s.second, a + n, x.brk, x.cont, InternStmt(t, s.first));
    PartsInside(s);
    LandsInside(s, a, x);
    PartAllKeep(g, s.first, x, s, a, x, 0, a);
    PartAllKeep(h, s.second, x, s, a, x, n, a + StmtSize(s.first));
    AllKeepConcat(g, h, s, a, x, 0, n);
  }

  // A jump at a place in s where the stack is empty.
  lemma JumpKeeps(s: Stmt, a: nat, x: Exits, target: int, k: nat)
    requires StmtHeight(s, k) == 0 && Lands(s, a, x, target)
    ensures AllKeep([Instruction(JMP, target)], s, a, x, k)
  {
    hide Lands;
  }

  lemma WhileFlow(s: Stmt, a: nat, x: Exits, t: Tables)
    requires s.While?
    requires
      var start := a + (ExprSize(s.cond) + 1);
      var end := a + (ExprSize(s.cond) + 1) + StmtSize(s.body) + 1;
      AllKeep(GenStmt(s.body, start, end, a, InternExpr(t, s.cond)), s.body, start, Exits(end, a), 0)
    ensures AllKeep(GenStmt(s, a, x.brk, x.cont, t), s, a, x, 0)
  {
    hide Guard, GenStmt, AllKeep, Lands, Inside, InternExpr, Runnable, StmtHeight;
    GenWhileIs(s.cond, s.body, a, x.brk, x.cont, t);
    WhileEnd(s);
    var off := ExprSize(s.cond) + 1;
    var end := a + off + StmtSize(s.body) + 1;
    var g, body := Guard(s.cond, t, end), GenStmt(s.body, a + off, end, a, InternExpr(t, s.cond));
    PartsInside(s);
    LandsInside(s, a, x);
    GuardAllKeep(s, t, a, x, end);
    PartAllKeep(body, s.body, Exits(end, a), s, a, x, off, a + off);
    AllKeepConcat(g, body, s, a, x, 0, off);
    JumpKeeps(s, a, x, a, off + StmtSize(s.body));
    AllKeepConcat(g + body, [Instruction(JMP, a)], s, a, x, 0, off + StmtSize(s.body));
  }

  lemma IfElseFlow(s: Stmt, a: nat, x: Exits, t: Tables)
    requires s.IfElse?
    requires
      var start := a + ExprSize(s.cond) + 1;
      var other := start + StmtSize(s.thn) + 1;
      var t1 := InternExpr(t, s.cond);
      && AllKeep(GenStmt(s.thn, start, x.brk, x.cont, t1), s.thn, start, x, 0)
      && AllKeep(GenStmt(s.els, other, x.brk, x.cont, InternStmt(t1, s.thn)), s.els, other, x, 0)
    ensures AllKeep(GenStmt(s, a, x.brk, x.cont, t), s, a, x, 0)
  {
    hide Guard, GenStmt, AllKeep, Lands, Inside, InternExpr, InternStmt, Runnable, StmtHeight;
    GenIfElseIs(s.cond, s.thn, s.els, a, x.brk, x.cont, t);
    ElseLands(s, a, x);
    var off := ExprSize(s.cond) + 1;
    var other := off + StmtSize(s.thn) + 1;
    var t1 := InternExpr(t, s.cond);
    var start := a + ExprSize(s.cond) + 1;
    var g, body := Guard(s.cond, t, a + other), GenStmt(s.thn, start, x.brk, x.cont, t1);
    var jump := [Instruction(JMP, a + StmtSize(s))];
    var last := GenStmt(s.els, start + StmtSize(s.thn) + 1, x.brk, x.cont, InternStmt(t1, s.thn));
    PartsInside(s);
    LandsInside(s, a, x);
    GuardAllKeep(s, t, a, x, a + other);
    PartAllKeep(body, s.thn, x, s, a, x, off, start);
    AllKeepConcat(g, body, s, a, x, 0, off);
    JumpKeeps(s, a, x, a + StmtSize(s), other - 1);
    AllKeepConcat(g + body, jump, s, a, x, 0, other - 1);
    PartAllKeep(last, s.els, x, s, a, x, other, start + StmtSize(s.thn) + 1);
    AllKeepConcat(g + body + jump, last, s, a, x, 0, other);
  }

  lemma WhileEnd(s: Stmt)
    requires s.While?
    ensures StmtHeight(s, ExprSize(s.cond) + 1 + StmtSize(s.body)) == 0
  {
  }

  lemma ElseLands(s: Stmt, a: nat, x: Exits)
    requires s.IfElse?
    ensures
      var other := ExprSize(s.cond) + 1 + StmtSize(s.thn) + 1;
      Lands(s, a, x, a + other) && StmtHeight(s, other - 1) == 0
  {
    EndsEmpty(s.els);
  }

  // ----- every run -----

  // The stack is as high as the instruction about to be run expects it.
  ghost predicate AtHeight(prog: Stmt, st: State) {
    st.status == Running ==> 0 <= st.ip <= StmtSize(prog) && |st.stack| == StmtHeight(prog, st.ip)
  }

  lemma StepKeepsHeight(prog: Stmt, m: Machine, st: State)
    requires Runnable(prog) && m.code == GenProgram(prog) && AtHeight(prog, st) && Step(m, st).status != Crashed
    ensures AtHeight(prog, Step(m, st))
  {
    hide StmtHeight, GenProgram, Execute, Keeps, AtHeight, Runnable, StmtSize;
    if st.status == Running {
      HeightRange(prog, st);
      var k := st.ip as nat;
      CodeAt(prog, k);
      if k < StmtSize(prog) {
        KeepsStep(prog, m, st, m.code[k]);
      } else {
        HaltStep(prog, m, st.(ip := st.ip + 1));
      }
    }
  }

  lemma HeightRange(prog: Stmt, st: State)
    requires AtHeight(prog, st) && st.status == Running
    ensures 0 <= st.ip <= StmtSize(prog) && |st.stack| == StmtHeight(prog, st.ip)
  {
  }

  lemma CodeAt(prog: Stmt, k: nat)
    requires k <= StmtSize(prog)
    ensures |GenProgram(prog)| == StmtSize(prog) + 1
    ensures k < StmtSize(prog) ==> Keeps(GenProgram(prog)[k], prog, 0, Exits(0, 0), k)
    ensures k == StmtSize(prog) ==> GenProgram(prog)[k] == Instruction(HALT, 0)
  {
    hide GenStmt, Keeps;
    if k < StmtSize(prog) {
      StmtFlow(prog, 0, Exits(0, 0), NO_TABLES);
      assert Keeps(GenStmt(prog, 0, 0, 0, NO_TABLES)[k], prog, 0, Exits(0, 0), 0 + k);
    }
  }

  lemma KeepsStep(prog: Stmt, m: Machine, st: State, i: Instruction)
    requires st.status == Running && 0 <= st.ip < StmtSize(prog) && |st.stack| == StmtHeight(prog, st.ip)
    requires Keeps(i, prog, 0, Exits(0, 0), st.ip) && Runnable(prog)
    ensures AtHeight(prog, Execute(m, st.(ip := st.ip + 1), i.op, i.arg))
  {
    EndsEmpty(prog);
    hide StmtHeight, Execute, Straight;
    if i.op == JMP || i.op == JMP_IF_FALSE {
      JumpStep(m, st.(ip := st.ip + 1), i);
    } else {
      StraightStep(m, st.(ip := st.ip + 1), i, StmtHeight(prog, st.ip + 1));
    }
  }

  lemma JumpStep(m: Machine, st: State, i: Instruction)
    requires st.status == Running && (i.op == JMP || i.op == JMP_IF_FALSE)
    ensures var st' := Execute(m, st, i.op, i.arg);
      && (i.op == JMP ==> st' == st.(ip := i.arg))
      && (i.op == JMP_IF_FALSE && |st.stack| == 1 && st'.status == Running ==>
          |st'.stack| == 0 && (st'.ip == i.arg || st'.ip == st.ip))
  {
  }

  lemma HaltStep(prog: Stmt, m: Machine, st: State)
    ensures AtHeight(prog, Execute(m, st, HALT, 0))
  {
  }

  // The instruction p of s is the first one of s or of a statement inside it.
  predicate StartsStatement(s: Stmt, p: nat) {
    p == 0 ||
    match s
    case If(c, b) => p > ExprSize(c) && StartsStatement(b, p - ExprSize(c) - 1)
    case IfElse(c, b, f) =>
      var start := ExprSize(c) + 1;
      var other := start + StmtSize(b) + 1;
      (start <= p < other - 1 && StartsStatement(b, p - start)) || (other <= p && StartsStatement(f, p - other))
    case While(c, b) =>
      var start := ExprSize(c) + 1;
      start <= p < start + StmtSize(b) && StartsStatement(b, p - start)
    case Seq(s1, s2) =>
      if p < StmtSize(s1) then StartsStatement(s1, p) else StartsStatement(s2, p - StmtSize(s1))
    case _ => false
  }

  lemma {:induction false} StartsAtZero(s: Stmt, p: nat)
    requires StartsStatement(s, p)
    ensures StmtHeight(s, p) == 0
  {
    EndsEmpty(s);
    if p > 0 {
      match s
      case If(c, b) => StartsAtZero(b, p - ExprSize(c) - 1);
      case IfElse(c, b, f) =>
        var start := ExprSize(c) + 1;
        var other := start + StmtSize(b) + 1;
        if p < other { StartsAtZero(b, p - start); } else { StartsAtZero(f, p - other); }
      case While(c, b) => StartsAtZero(b, p - ExprSize(c) - 1);
      case Seq(s1, s2) =>
        if p < StmtSize(s1) { StartsAtZero(s1, p); } else { StartsAtZero(s2, p - StmtSize(s1)); }
      case _ =>
    }
  }

  // Every jump in the finished code goes to an instruction of the finished code, and to one that
  // expects an empty stack: no placeholder is left.
  lemma JumpsLand(prog: Stmt, k: nat)
    requires k < |GenProgram(prog)|
    ensures
      var i := GenProgram(prog)[k];
      i.op == JMP || i.op == JMP_IF_FALSE ==> 0 <= i.arg < |GenProgram(prog)| && StmtHeight(prog, i.arg) == 0
  {
    hide StmtHeight, GenStmt, Straight, StmtSize;
    EndsEmpty(prog);
    assert k <= StmtSize(prog);
    CodeAt(prog, k);
  }
}
