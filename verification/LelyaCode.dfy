// The code the compiler must produce for a program: instructions, intern tables, and jump targets.
module LelyaCode {
  import opened NawBase
  import opened LelyaSyntax

  datatype OpCode =
    | PUSH_INT | PUSH_STR | PRINT_INT | PRINT_STR | READ_INT | LOAD_VAR | STORE_VAR
    | ADD | SUB | MUL | DIV | EQ | NE | LT | GT | LE | GE
    | JMP | JMP_IF_FALSE | NATIVE_CALL | PRINT | HALT

  datatype Instruction = Instruction(op: OpCode, arg: int)

  function OpOf(op: BinOp): OpCode {
    match op
    case Add => ADD case Sub => SUB case Mul => MUL case Div => DIV
    case Eq => EQ case Ne => NE case Lt => LT case Gt => GT case Le => LE case Ge => GE
  }

  // ----- intern tables: all names and strings in the order they come, of which the compiler keeps the first -----

  datatype Tables = Tables(vars: seq<string>, strs: seq<string>)

  const NO_TABLES := Tables([], [])

  // The first place of x in t, or |t|.
  function IndexOf(t: seq<string>, x: string): (i: nat)
    ensures i <= |t|
  {
    if t == [] then 0 else if t[0] == x then 0 else 1 + IndexOf(t[1..], x)
  }

  // The slot the compiler uses for x in a table of n slots: its place, or the last slot when the table was
  // full before x came.
  function Slot(t: seq<string>, x: string, n: nat): int { Min(IndexOf(t, x), n - 1) }

  // What a table of n slots keeps of the names that came.
  function Kept(t: seq<string>, n: nat): (r: seq<string>)
    ensures |r| <= n
  {
    if |t| <= n then t else t[..n]
  }

  function Intern(t: seq<string>, x: string): seq<string> {
    if x in t then t else t + [x]
  }

  function InternAll(t: seq<string>, xs: seq<string>): seq<string> {
    if xs == [] then t else Intern(InternAll(t, xs[..|xs| - 1]), xs[|xs| - 1])
  }

  predicate Extends(t: Tables, t': Tables) {
    t.vars <= t'.vars && t.strs <= t'.strs
  }

  function InternExpr(t: Tables, e: Expr): Tables
    decreases e
  {
    match e
    case Num(_) => t
    case Str(s) => t.(strs := Intern(t.strs, s))
    case Var(x) => t.(vars := Intern(t.vars, x))
    case Bin(_, l, r) => InternExpr(InternExpr(t, l), r)
    case Native(_, args) => t.(strs := InternAll(t.strs, args))
  }

  function InternStmt(t: Tables, s: Stmt): Tables
    decreases s
  {
    match s
    case Print(e) => InternExpr(t, e)
    case Assign(x, e) => var t' := InternExpr(t, e); t'.(vars := Intern(t'.vars, x))
    case Read(x) => t.(vars := Intern(t.vars, x))
    case If(c, b) => InternStmt(InternExpr(t, c), b)
    case IfElse(c, b, f) => InternStmt(InternStmt(InternExpr(t, c), b), f)
    case While(c, b) => InternStmt(InternExpr(t, c), b)
    case Seq(s1, s2) => InternStmt(InternStmt(t, s1), s2)
    case _ => t
  }

  // ----- code; t is the tables before the fragment -----

  function PushArgs(args: seq<string>, t: seq<string>): (r: seq<Instruction>)
    ensures |r| == |args|
  {
    if args == [] then []
    else
      var init := args[..|args| - 1];
      PushArgs(init, t) + [Instruction(PUSH_STR, Slot(InternAll(t, args), args[|args| - 1], MAX_STRINGS))]
  }

  function ExprSize(e: Expr): (n: nat)
    ensures n >= 1
  {
    match e
    case Bin(_, l, r) => ExprSize(l) + ExprSize(r) + 1
    case Native(_, args) => |args| + 1
    case _ => 1
  }

  function GenExpr(e: Expr, t: Tables): (r: seq<Instruction>)
    ensures |r| == ExprSize(e)
  {
    match e
    case Num(n) => [Instruction(PUSH_INT, n)]
    case Str(s) => [Instruction(PUSH_STR, Slot(Intern(t.strs, s), s, MAX_STRINGS))]
    case Var(x) => [Instruction(LOAD_VAR, Slot(Intern(t.vars, x), x, MAX_VARS))]
    case Bin(op, l, r) => GenExpr(l, t) + GenExpr(r, InternExpr(t, l)) + [Instruction(OpOf(op), 0)]
    case Native(id, args) => PushArgs(args, t.strs) + [Instruction(NATIVE_CALL, id)]
  }

  lemma GenBin(op: BinOp, l: Expr, r: Expr, t: Tables)
    ensures GenExpr(Bin(op, l, r), t) == GenExpr(l, t) + GenExpr(r, InternExpr(t, l)) + [Instruction(OpOf(op), 0)]
    ensures InternExpr(t, Bin(op, l, r)) == InternExpr(InternExpr(t, l), r)
  {
  }

  function StmtSize(s: Stmt): nat {
    match s
    case Skip => 0
    case Print(e) => ExprSize(e) + 1
    case Assign(_, e) => ExprSize(e) + 1
    case Read(_) => 1
    case Break => 1
    case Continue => 1
    case If(c, b) => ExprSize(c) + 1 + StmtSize(b)
    case IfElse(c, b, f) => ExprSize(c) + 1 + StmtSize(b) + 1 + StmtSize(f)
    case While(c, b) => ExprSize(c) + 1 + StmtSize(b) + 1
    case Seq(s1, s2) => StmtSize(s1) + StmtSize(s2)
  }

  // A condition and the jump taken when it is zero.
  function Guard(c: Expr, t: Tables, target: int): (r: seq<Instruction>)
    ensures |r| == ExprSize(c) + 1
  {
    GenExpr(c, t) + [Instruction(JMP_IF_FALSE, target)]
  }

  // The code of s placed at address a, with the break and continue targets of the loop around it.
  function GenStmt(s: Stmt, a: nat, brk: int, cont: int, t: Tables): (r: seq<Instruction>)
    ensures |r| == StmtSize(s)
  {
    hide GenExpr, InternExpr, InternStmt, ExprSize, Slot, Guard;
    match s
    case Skip => []
    case Print(e) => GenExpr(e, t) + [Instruction(PRINT, 0)]
    case Assign(x, e) =>
      GenExpr(e, t) + [Instruction(STORE_VAR, Slot(Intern(InternExpr(t, e).vars, x), x, MAX_VARS))]
    case Read(x) => [Instruction(READ_INT, Slot(Intern(t.vars, x), x, MAX_VARS))]
    case Break => [Instruction(JMP, brk)]
    case Continue => [Instruction(JMP, cont)]
    case If(c, b) =>
      var start := a + ExprSize(c) + 1;
      Guard(c, t, start + StmtSize(b)) + GenStmt(b, start, brk, cont, InternExpr(t, c))
    case IfElse(c, b, f) =>
      var start := a + ExprSize(c) + 1;
      var other := start + StmtSize(b) + 1;
      var t' := InternExpr(t, c);
      Guard(c, t, other) + GenStmt(b, start, brk, cont, t')
      + [Instruction(JMP, other + StmtSize(f))] + GenStmt(f, other, brk, cont, InternStmt(t', b))
    case While(c, b) =>
      var start := a + ExprSize(c) + 1;
      var end := start + StmtSize(b) + 1;
      Guard(c, t, end) + GenStmt(b, start, end, a, InternExpr(t, c)) + [Instruction(JMP, a)]
    case Seq(s1, s2) =>
      GenStmt(s1, a, brk, cont, t) + GenStmt(s2, a + StmtSize(s1), brk, cont, InternStmt(t, s1))
  }

  // The code of the compound statements, part by part.
  lemma GenIfIs(c: Expr, b: Stmt, a: nat, brk: int, cont: int, t: Tables)
    ensures
      var start := a + ExprSize(c) + 1;
      GenStmt(If(c, b), a, brk, cont, t)
      == Guard(c, t, start + StmtSize(b)) + GenStmt(b, start, brk, cont, InternExpr(t, c))
  {
    hide GenExpr, InternExpr, InternStmt, Guard, ExprSize, StmtSize;
  }

  lemma GenIfElseIs(c: Expr, b: Stmt, f: Stmt, a: nat, brk: int, cont: int, t: Tables)
    ensures
      var start := a + ExprSize(c) + 1;
      var other := start + StmtSize(b) + 1;
      var t1 := InternExpr(t, c);
      GenStmt(IfElse(c, b, f), a, brk, cont, t)
      == Guard(c, t, other) + GenStmt(b, start, brk, cont, t1) + [Instruction(JMP, other + StmtSize(f))]
         + GenStmt(f, other, brk, cont, InternStmt(t1, b))
  {
    hide GenExpr, InternExpr, InternStmt, Guard, ExprSize, StmtSize;
  }

  lemma GenWhileIs(c: Expr, b: Stmt, a: nat, brk: int, cont: int, t: Tables)
    ensures
      var start := a + ExprSize(c) + 1;
      var end := start + StmtSize(b) + 1;
      GenStmt(While(c, b), a, brk, cont, t)
      == Guard(c, t, end) + GenStmt(b, start, end, a, InternExpr(t, c)) + [Instruction(JMP, a)]
  {
    hide GenExpr, InternExpr, InternStmt, Guard, ExprSize, StmtSize;
  }

  lemma GenSeqIs(s1: Stmt, s2: Stmt, a: nat, brk: int, cont: int, t: Tables)
    ensures GenStmt(Seq(s1, s2), a, brk, cont, t)
         == GenStmt(s1, a, brk, cont, t) + GenStmt(s2, a + StmtSize(s1), brk, cont, InternStmt(t, s1))
  {
  }

  lemma SeqTables(s1: Stmt, s2: Stmt, t: Tables)
    ensures InternStmt(t, Seq(s1, s2)) == InternStmt(InternStmt(t, s1), s2)
    ensures StmtSize(Seq(s1, s2)) == StmtSize(s1) + StmtSize(s2)
  {
  }

  lemma IfTables(c: Expr, b: Stmt, t: Tables)
    ensures InternStmt(t, If(c, b)) == InternStmt(InternExpr(t, c), b)
    ensures StmtSize(If(c, b)) == ExprSize(c) + 1 + StmtSize(b)
  {
  }

  lemma WhileTables(c: Expr, b: Stmt, t: Tables)
    ensures InternStmt(t, While(c, b)) == InternStmt(InternExpr(t, c), b)
    ensures StmtSize(While(c, b)) == ExprSize(c) + 1 + StmtSize(b) + 1
  {
  }

  lemma IfElseTables(c: Expr, b: Stmt, f: Stmt, t: Tables)
    ensures InternStmt(t, IfElse(c, b, f)) == InternStmt(InternStmt(InternExpr(t, c), b), f)
    ensures StmtSize(IfElse(c, b, f)) == ExprSize(c) + 1 + StmtSize(b) + 1 + StmtSize(f)
  {
  }

  function GenProgram(s: Stmt): seq<Instruction> {
    GenStmt(s, 0, 0, 0, NO_TABLES) + [Instruction(HALT, 0)]
  }

  // ----- what fits the compiler's fixed tables -----

  predicate TablesFit(t: Tables) {
    |t.vars| <= MAX_VARS && |t.strs| <= MAX_STRINGS
  }

  // Each loop inside s has room for its recorded jumps.
  predicate LoopsFit(s: Stmt) {
    match s
    case If(_, b) => LoopsFit(b)
    case IfElse(_, b, f) => LoopsFit(b) && LoopsFit(f)
    case While(_, b) => LoopsFit(b) && JumpCount(b, true) <= MAX_LOOP_JUMPS && JumpCount(b, false) <= MAX_LOOP_JUMPS
    case Seq(s1, s2) => LoopsFit(s1) && LoopsFit(s2)
    case _ => true
  }

  predicate ExprFits(e: Expr, room: int) { ExprSize(e) <= room }

  predicate StmtFits(s: Stmt, room: int) { StmtSize(s) <= room && LoopsFit(s) }

  // The program's code fits the compiler's arrays.
  predicate CodeFits(s: Stmt) { StmtFits(s, MAX_CODE - 1) }

  // And each of its variables and strings has a slot of its own.
  predicate ProgramFits(s: Stmt) {
    CodeFits(s) && TablesFit(InternStmt(NO_TABLES, s))
  }

  lemma {:induction false} InternAllGrows(t: seq<string>, xs: seq<string>)
    ensures t <= InternAll(t, xs)
  {
    if xs != [] { InternAllGrows(t, xs[..|xs| - 1]); }
  }

  lemma {:induction false} InternAllPrefix(t: seq<string>, xs: seq<string>, k: nat)
    requires k <= |xs|
    ensures InternAll(t, xs[..k]) <= InternAll(t, xs)
    decreases |xs|
  {
    if k == |xs| {
      assert xs[..k] == xs;
    } else {
      InternAllPrefix(t, xs[..|xs| - 1], k);
      assert xs[..|xs| - 1][..k] == xs[..k];
    }
  }

  // The intern tables only grow, so an index already emitted keeps its meaning.
  lemma {:induction false} InternExprGrows(t: Tables, e: Expr)
    ensures Extends(t, InternExpr(t, e))
    decreases e
  {
    match e
    case Bin(_, l, r) => InternExprGrows(t, l); InternExprGrows(InternExpr(t, l), r);
    case Native(_, args) => InternAllGrows(t.strs, args);
    case _ =>
  }

  lemma {:induction false} InternStmtGrows(t: Tables, s: Stmt)
    ensures Extends(t, InternStmt(t, s))
    decreases s
  {
    match s
    case Print(e) => InternExprGrows(t, e);
    case Assign(x, e) => InternExprGrows(t, e);
    case If(c, b) => InternExprGrows(t, c); InternStmtGrows(InternExpr(t, c), b);
    case IfElse(c, b, f) =>
      var t1 := InternExpr(t, c);
      InternExprGrows(t, c); InternStmtGrows(t1, b); InternStmtGrows(InternStmt(t1, b), f);
    case While(c, b) => InternExprGrows(t, c); InternStmtGrows(InternExpr(t, c), b);
    case Seq(s1, s2) => InternStmtGrows(t, s1); InternStmtGrows(InternStmt(t, s1), s2);
    case _ =>
  }

  // ----- back-patching -----

  function JumpCount(s: Stmt, breaks: bool): nat {
    match s
    case Break => if breaks then 1 else 0
    case Continue => if breaks then 0 else 1
    case If(_, b) => JumpCount(b, breaks)
    case IfElse(_, b, f) => JumpCount(b, breaks) + JumpCount(f, breaks)
    case Seq(s1, s2) => JumpCount(s1, breaks) + JumpCount(s2, breaks)
    case _ => 0
  }

  // Where the breaks (or continues) of s that leave s are, for s placed at address a.
  function JumpSites(s: Stmt, a: nat, breaks: bool): (sites: seq<nat>)
    ensures |sites| == JumpCount(s, breaks)
  {
    match s
    case Break => if breaks then [a] else []
    case Continue => if breaks then [] else [a]
    case If(c, b) => JumpSites(b, a + ExprSize(c) + 1, breaks)
    case IfElse(c, b, f) =>
      var start := a + ExprSize(c) + 1;
      JumpSites(b, start, breaks) + JumpSites(f, start + StmtSize(b) + 1, breaks)
    case Seq(s1, s2) => JumpSites(s1, a, breaks) + JumpSites(s2, a + StmtSize(s1), breaks)
    case _ => []
  }

  // Setting the argument of each listed instruction, in order.
  function Patch(code: seq<Instruction>, sites: seq<nat>, target: int): (r: seq<Instruction>)
    ensures |r| == |code|
  {
    if sites == [] then code
    else
      var c, at := Patch(code, sites[..|sites| - 1], target), sites[|sites| - 1];
      if at < |c| then c[at := c[at].(arg := target)] else c
  }

  // Patching sets the argument at exactly the listed addresses.
  lemma {:induction false} PatchAt(code: seq<Instruction>, sites: seq<nat>, target: int, k: nat)
    requires k < |code|
    ensures Patch(code, sites, target)[k] == if k in sites then code[k].(arg := target) else code[k]
  {
    if sites != [] {
      PatchAt(code, sites[..|sites| - 1], target, k);
      assert sites == sites[..|sites| - 1] + [sites[|sites| - 1]];
    }
  }

  // h is g with the given argument at the given addresses, g being placed at address a.
  predicate Retargeted(g: seq<Instruction>, h: seq<Instruction>, a: nat, sites: seq<nat>, target: int) {
    && |g| == |h|
    && (forall i :: 0 <= i < |sites| ==> a <= sites[i] < a + |g|)
    && (forall k :: 0 <= k < |g| ==> h[k] == if a + k in sites then g[k].(arg := target) else g[k])
  }

  lemma RetargetedConcat(g1: seq<Instruction>, h1: seq<Instruction>, g2: seq<Instruction>, h2: seq<Instruction>,
                         a: nat, sites1: seq<nat>, sites2: seq<nat>, target: int)
    requires Retargeted(g1, h1, a, sites1, target)
    requires Retargeted(g2, h2, a + |g1|, sites2, target)
    ensures Retargeted(g1 + g2, h1 + h2, a, sites1 + sites2, target)
  {
    forall k | 0 <= k < |g1 + g2|
      ensures (h1 + h2)[k] == if a + k in sites1 + sites2 then (g1 + g2)[k].(arg := target) else (g1 + g2)[k]
    {
      if k < |g1| {
        assert a + k !in sites2;
      } else {
        assert a + k !in sites1;
        assert a + k == a + |g1| + (k - |g1|);
      }
    }
  }

  // Code without recorded sites before, or on either side of, a retargeted fragment.
  lemma RetargetedAfter(pre: seq<Instruction>, g: seq<Instruction>, h: seq<Instruction>,
                        a: nat, sites: seq<nat>, target: int)
    requires Retargeted(g, h, a + |pre|, sites, target)
    ensures Retargeted(pre + g, pre + h, a, sites, target)
  {
    assert Retargeted(pre, pre, a, [], target);
    RetargetedConcat(pre, pre, g, h, a, [], sites, target);
    assert [] + sites == sites;
  }

  lemma RetargetedWithin(pre: seq<Instruction>, g: seq<Instruction>, h: seq<Instruction>, post: seq<Instruction>,
                         a: nat, sites: seq<nat>, target: int)
    requires Retargeted(g, h, a + |pre|, sites, target)
    ensures Retargeted(pre + g + post, pre + h + post, a, sites, target)
  {
    RetargetedAfter(pre, g, h, a, sites, target);
    assert sites + [] == sites;
    assert Retargeted(post, post, a + |pre + g|, [], target);
    RetargetedConcat(pre + g, pre + h, post, post, a, sites, [], target);
  }

  // The targets of the loop around a statement.
  datatype Exits = Exits(brk: int, cont: int)

  function Retarget(x: Exits, breaks: bool, target: int): Exits {
    if breaks then x.(brk := target) else x.(cont := target)
  }

  // The recorded sites of a statement are exactly its breaks (or continues) that leave it:
  // giving them the argument `target` turns the code for exits x into the code for exits y.
  ghost predicate SitesMark(s: Stmt, a: nat, x: Exits, y: Exits, t: Tables, breaks: bool, target: int) {
    Retargeted(GenStmt(s, a, x.brk, x.cont, t), GenStmt(s, a, y.brk, y.cont, t), a, JumpSites(s, a, breaks), target)
  }

  lemma {:induction false} SitesRetarget(s: Stmt, a: nat, x: Exits, y: Exits, t: Tables, breaks: bool, target: int)
    requires y == Retarget(x, breaks, target)
    ensures SitesMark(s, a, x, y, t, breaks, target)
    decreases s
  {
    hide SitesMark;
    match s
    case If(c, b) =>
      SitesRetarget(b, a + ExprSize(c) + 1, x, y, InternExpr(t, c), breaks, target);
      SitesRetargetIf(s, a, x, y, t, breaks, target);
    case IfElse(c, b, f) =>
      var t1 := InternExpr(t, c);
      SitesRetarget(b, a + ExprSize(c) + 1, x, y, t1, breaks, target);
      SitesRetarget(f, a + ExprSize(c) + 1 + StmtSize(b) + 1, x, y, InternStmt(t1, b), breaks, target);
      SitesRetargetIfElse(c, b, f, a, x, y, t, breaks, target);
    case Seq(s1, s2) =>
      SitesRetarget(s1, a, x, y, t, breaks, target);
      SitesRetarget(s2, a + StmtSize(s1), x, y, InternStmt(t, s1), breaks, target);
      SitesRetargetSeq(s, a, x, y, t, breaks, target);
    case _ => SitesRetargetSimple(s, a, x, y, t, breaks, target);
  }

  lemma SitesRetargetSimple(s: Stmt, a: nat, x: Exits, y: Exits, t: Tables, breaks: bool, target: int)
    requires !s.If? && !s.IfElse? && !s.Seq? && y == Retarget(x, breaks, target)
    ensures SitesMark(s, a, x, y, t, breaks, target)
  {
  }

  lemma SitesRetargetIf(s: Stmt, a: nat, x: Exits, y: Exits, t: Tables, breaks: bool, target: int)
    requires s.If?
    requires SitesMark(s.thn, a + ExprSize(s.cond) + 1, x, y, InternExpr(t, s.cond), breaks, target)
    ensures SitesMark(s, a, x, y, t, breaks, target)
  {
    hide Retargeted;
    var start := a + ExprSize(s.cond) + 1;
    var t1 := InternExpr(t, s.cond);
    RetargetedAfter(Guard(s.cond, t, start + StmtSize(s.thn)),
                    GenStmt(s.thn, start, x.brk, x.cont, t1), GenStmt(s.thn, start, y.brk, y.cont, t1),
                    a, JumpSites(s.thn, start, breaks), target);
  }

  lemma SitesRetargetIfElse(c: Expr, b: Stmt, f: Stmt, a: nat, x: Exits, y: Exits, t: Tables, breaks: bool, target: int)
    requires SitesMark(b, a + ExprSize(c) + 1, x, y, InternExpr(t, c), breaks, target)
    requires SitesMark(f, a + ExprSize(c) + 1 + StmtSize(b) + 1, x, y, InternStmt(InternExpr(t, c), b), breaks, target)
    ensures SitesMark(IfElse(c, b, f), a, x, y, t, breaks, target)
  {
    var start := a + ExprSize(c) + 1;
    var other := start + StmtSize(b) + 1;
    var t1 := InternExpr(t, c);
    var t2 := InternStmt(t1, b);
    GenIfElseIs(c, b, f, a, x.brk, x.cont, t);
    GenIfElseIs(c, b, f, a, y.brk, y.cont, t);
    IfElseSites(c, b, f, a, breaks);
    hide Retargeted, GenStmt, JumpSites, InternExpr, InternStmt, Guard, StmtSize, ExprSize;
    var pre, jump := Guard(c, t, other), [Instruction(JMP, other + StmtSize(f))];
    var g, h := GenStmt(b, start, x.brk, x.cont, t1), GenStmt(b, start, y.brk, y.cont, t1);
    RetargetedWithin(pre, g, h, jump, a, JumpSites(b, start, breaks), target);
    RetargetedConcat(pre + g + jump, pre + h + jump,
                     GenStmt(f, other, x.brk, x.cont, t2), GenStmt(f, other, y.brk, y.cont, t2), a,
                     JumpSites(b, start, breaks), JumpSites(f, other, breaks), target);
  }

  lemma IfElseSites(c: Expr, b: Stmt, f: Stmt, a: nat, breaks: bool)
    ensures
      var start := a + ExprSize(c) + 1;
      JumpSites(IfElse(c, b, f), a, breaks)
      == JumpSites(b, start, breaks) + JumpSites(f, start + StmtSize(b) + 1, breaks)
  {
  }

  lemma SitesRetargetSeq(s: Stmt, a: nat, x: Exits, y: Exits, t: Tables, breaks: bool, target: int)
    requires s.Seq?
    requires SitesMark(s.first, a, x, y, t, breaks, target)
    requires SitesMark(s.second, a + StmtSize(s.first), x, y, InternStmt(t, s.first), breaks, target)
    ensures SitesMark(s, a, x, y, t, breaks, target)
  {
    hide Retargeted;
    var t1 := InternStmt(t, s.first);
    var a2 := a + StmtSize(s.first);
    RetargetedConcat(GenStmt(s.first, a, x.brk, x.cont, t), GenStmt(s.first, a, y.brk, y.cont, t),
                     GenStmt(s.second, a2, x.brk, x.cont, t1), GenStmt(s.second, a2, y.brk, y.cont, t1), a,
                     JumpSites(s.first, a, breaks), JumpSites(s.second, a2, breaks), target);
  }

  // Back-patching the recorded sites of a statement, wherever its code lies, retargets exactly
  // its leaving breaks (or continues) and nothing else.
  lemma PatchRetargets(pre: seq<Instruction>, s: Stmt, x: Exits, t: Tables,
                       post: seq<Instruction>, breaks: bool, target: int)
    ensures forall i :: 0 <= i < |JumpSites(s, |pre|, breaks)| ==>
      JumpSites(s, |pre|, breaks)[i] < |pre| + StmtSize(s)
    ensures
      var y := Retarget(x, breaks, target);
      Patch(pre + GenStmt(s, |pre|, x.brk, x.cont, t) + post, JumpSites(s, |pre|, breaks), target)
      == pre + GenStmt(s, |pre|, y.brk, y.cont, t) + post
  {
    var y := Retarget(x, breaks, target);
    var sites := JumpSites(s, |pre|, breaks);
    var g := GenStmt(s, |pre|, x.brk, x.cont, t);
    var h := GenStmt(s, |pre|, y.brk, y.cont, t);
    SitesRetarget(s, |pre|, x, y, t, breaks, target);
    RetargetedWithin(pre, g, h, post, 0, sites, target);
    forall k | 0 <= k < |pre + g + post|
      ensures Patch(pre + g + post, sites, target)[k] == (pre + h + post)[k]
    {
      PatchAt(pre + g + post, sites, target, k);
      assert 0 + k == k;
    }
  }

  // ----- where the jumps of finished code go -----

  // The instruction at address p of a statement's code is a jump to the target.
  predicate JumpAt(s: Stmt, a: nat, x: Exits, t: Tables, p: nat, target: int) {
    a <= p < a + StmtSize(s) && GenStmt(s, a, x.brk, x.cont, t)[p - a] == Instruction(JMP, target)
  }

  // In the code of a statement each of its breaks (continues) is a jump to the break (continue) target.
  lemma {:induction false} SiteJumps(s: Stmt, a: nat, x: Exits, t: Tables, breaks: bool, k: nat)
    requires k < JumpCount(s, breaks)
    ensures JumpAt(s, a, x, t, JumpSites(s, a, breaks)[k], if breaks then x.brk else x.cont)
    decreases s
  {
    hide JumpAt, GenStmt, InternExpr, InternStmt, JumpSites, StmtSize;
    var p, target := JumpSites(s, a, breaks)[k], if breaks then x.brk else x.cont;
    match s
    case Break => JumpHere(s, a, x, t, breaks);
    case Continue => JumpHere(s, a, x, t, breaks);
    case If(c, b) =>
      IfSites(c, b, a, breaks);
      SiteJumps(b, a + ExprSize(c) + 1, x, InternExpr(t, c), breaks, k);
      JumpInIf(c, b, a, x, t, p, target);
    case IfElse(c, b, f) =>
      var start, n, t1 := a + ExprSize(c) + 1, JumpCount(b, breaks), InternExpr(t, c);
      IfElseSites(c, b, f, a, breaks);
      if k < n {
        SiteJumps(b, start, x, t1, breaks, k);
      } else {
        SiteJumps(f, start + StmtSize(b) + 1, x, InternStmt(t1, b), breaks, k - n);
      }
      JumpInIfElse(c, b, f, a, x, t, p, target);
    case Seq(s1, s2) =>
      var n := JumpCount(s1, breaks);
      SeqSites(s1, s2, a, breaks);
      if k < n {
        SiteJumps(s1, a, x, t, breaks, k);
      } else {
        SiteJumps(s2, a + StmtSize(s1), x, InternStmt(t, s1), breaks, k - n);
      }
      JumpInSeq(s1, s2, a, x, t, p, target);
    case _ =>
  }

  lemma JumpHere(s: Stmt, a: nat, x: Exits, t: Tables, breaks: bool)
    requires if breaks then s.Break? else s.Continue?
    ensures JumpSites(s, a, breaks) == [a] && JumpAt(s, a, x, t, a, if breaks then x.brk else x.cont)
  {
  }

  lemma IfSites(c: Expr, b: Stmt, a: nat, breaks: bool)
    ensures JumpSites(If(c, b), a, breaks) == JumpSites(b, a + ExprSize(c) + 1, breaks)
  {
  }

  lemma SeqSites(s1: Stmt, s2: Stmt, a: nat, breaks: bool)
    ensures JumpSites(Seq(s1, s2), a, breaks)
      == JumpSites(s1, a, breaks) + JumpSites(s2, a + StmtSize(s1), breaks)
  {
  }

  lemma JumpInIf(c: Expr, b: Stmt, a: nat, x: Exits, t: Tables, p: nat, target: int)
    requires JumpAt(b, a + ExprSize(c) + 1, x, InternExpr(t, c), p, target)
    ensures JumpAt(If(c, b), a, x, t, p, target)
  {
    GenIfIs(c, b, a, x.brk, x.cont, t);
    hide GenStmt, Guard;
  }

  lemma JumpInIfElse(c: Expr, b: Stmt, f: Stmt, a: nat, x: Exits, t: Tables, p: nat, target: int)
    requires
      var start, t1 := a + ExprSize(c) + 1, InternExpr(t, c);
      JumpAt(b, start, x, t1, p, target) || JumpAt(f, start + StmtSize(b) + 1, x, InternStmt(t1, b), p, target)
    ensures JumpAt(IfElse(c, b, f), a, x, t, p, target)
  {
    hide GenStmt, Guard, InternExpr, InternStmt, StmtSize, ExprSize;
    GenIfElseIs(c, b, f, a, x.brk, x.cont, t);
    IfElseTables(c, b, f, t);
    var start, t1 := a + ExprSize(c) + 1, InternExpr(t, c);
    var other := start + StmtSize(b) + 1;
    var g, h := Guard(c, t, other), GenStmt(b, start, x.brk, x.cont, t1);
    var jump, last := [Instruction(JMP, other + StmtSize(f))], GenStmt(f, other, x.brk, x.cont, InternStmt(t1, b));
    if JumpAt(b, start, x, t1, p, target) {
      Inside(g, h, jump + last, p - start);
      assert g + h + jump + last == g + h + (jump + last);
    } else {
      Inside(g + h + jump, last, [], p - other);
      assert g + h + jump + last == g + h + jump + last + [];
    }
  }

  lemma JumpInSeq(s1: Stmt, s2: Stmt, a: nat, x: Exits, t: Tables, p: nat, target: int)
    requires JumpAt(s1, a, x, t, p, target) || JumpAt(s2, a + StmtSize(s1), x, InternStmt(t, s1), p, target)
    ensures JumpAt(Seq(s1, s2), a, x, t, p, target)
  {
    GenSeqIs(s1, s2, a, x.brk, x.cont, t);
    hide GenStmt, InternStmt;
  }

  // The k-th break (continue) of a loop's body jumps past the loop (to its condition).
  predicate LoopJump(c: Expr, b: Stmt, a: nat, x: Exits, t: Tables, breaks: bool, k: nat)
    requires k < JumpCount(b, breaks)
  {
    var g, start := GenStmt(While(c, b), a, x.brk, x.cont, t), a + ExprSize(c) + 1;
    var p := JumpSites(b, start, breaks)[k];
    start <= p < a + |g| - 1 && g[p - a] == Instruction(JMP, if breaks then a + |g| else a)
  }

  // In the code of a loop each break of its own goes to the first instruction after it, each continue to the
  // first of its condition, its guard past its end, and its last instruction back to the condition.
  lemma LoopJumps(c: Expr, b: Stmt, a: nat, x: Exits, t: Tables)
    ensures
      var g, start := GenStmt(While(c, b), a, x.brk, x.cont, t), a + ExprSize(c) + 1;
      && g[start - 1 - a] == Instruction(JMP_IF_FALSE, a + |g|) && g[|g| - 1] == Instruction(JMP, a)
    ensures forall breaks: bool, k: nat :: k < JumpCount(b, breaks) ==> LoopJump(c, b, a, x, t, breaks, k)
  {
    hide GenStmt, JumpSites, StmtSize, ExprSize, LoopJump;
    LoopEnds(c, b, a, x, t);
    forall breaks: bool, k: nat | k < JumpCount(b, breaks) ensures LoopJump(c, b, a, x, t, breaks, k) {
      LoopJumpAt(c, b, a, x, t, breaks, k);
    }
  }

  lemma LoopJumpAt(c: Expr, b: Stmt, a: nat, x: Exits, t: Tables, breaks: bool, k: nat)
    requires k < JumpCount(b, breaks)
    ensures LoopJump(c, b, a, x, t, breaks, k)
  {
    hide GenStmt, JumpSites, JumpCount, StmtSize, ExprSize, Guard, InternExpr;
    var start := a + ExprSize(c) + 1;
    var end := start + StmtSize(b) + 1;
    var p := JumpSites(b, start, breaks)[k];
    SiteJumps(b, start, Exits(end, a), InternExpr(t, c), breaks, k);
    GenWhileIs(c, b, a, x.brk, x.cont, t);
    WhileTables(c, b, t);
    Inside(Guard(c, t, end), GenStmt(b, start, end, a, InternExpr(t, c)), [Instruction(JMP, a)], p - start);
  }

  lemma Inside(pre: seq<Instruction>, g: seq<Instruction>, post: seq<Instruction>, k: nat)
    requires k < |g|
    ensures (pre + g + post)[|pre| + k] == g[k]
  {
  }

  lemma LoopEnds(c: Expr, b: Stmt, a: nat, x: Exits, t: Tables)
    ensures
      var g, start := GenStmt(While(c, b), a, x.brk, x.cont, t), a + ExprSize(c) + 1;
      && |g| > start - a
      && g[start - 1 - a] == Instruction(JMP_IF_FALSE, a + |g|) && g[|g| - 1] == Instruction(JMP, a)
  {
    var start := a + ExprSize(c) + 1;
    GenWhileIs(c, b, a, x.brk, x.cont, t);
    WhileTables(c, b, t);
    GuardEnd(c, t, start + StmtSize(b) + 1);
    hide GenStmt, StmtSize, ExprSize, Guard, InternExpr;
  }

  lemma GuardEnd(c: Expr, t: Tables, target: int)
    ensures |Guard(c, t, target)| == ExprSize(c) + 1
    ensures Guard(c, t, target)[ExprSize(c)] == Instruction(JMP_IF_FALSE, target)
  {
  }
}
