// Programs with more names or strings than there are slots. The compiler gives all that come after a table is
// full the last slot, so such a program runs as the one in which they are replaced by the name or string that
// has it.
module LelyaShared {
  import opened LelyaSyntax
  import opened LelyaCode
  import opened LelyaSemantics
  import opened LelyaCorrectness
  import LelyaSafety

  // ----- one table -----

  predicate NoTwice(t: seq<string>) { forall i, j :: 0 <= i < j < |t| ==> t[i] != t[j] }

  // What stands for x when only the first n of the names in t have a slot.
  function Standing(t: seq<string>, n: nat, x: string): string
    requires n > 0
  {
    if |t| <= n || IndexOf(t, x) < n then x else t[n - 1]
  }

  lemma {:induction false} IndexAt(t: seq<string>, k: nat)
    requires NoTwice(t) && k < |t|
    ensures IndexOf(t, t[k]) == k
    decreases k
  {
    if k > 0 {
      assert NoTwice(t[1..]);
      IndexAt(t[1..], k - 1);
    }
  }

  lemma {:induction false} IndexNew(t: seq<string>, x: string)
    requires x !in t
    ensures IndexOf(t + [x], x) == |t|
  {
    if t != [] {
      assert (t + [x])[1..] == t[1..] + [x];
      IndexNew(t[1..], x);
    }
  }

  lemma NoTwiceBefore(t: seq<string>, final: seq<string>)
    requires t <= final && NoTwice(final)
    ensures NoTwice(t)
  {
    forall i, j | 0 <= i < j < |t| ensures t[i] != t[j] {
      assert t[i] == final[i] && t[j] == final[j];
    }
  }

  // The place of x, once it has come, is its place in the final table.
  lemma PlaceOf(t: seq<string>, final: seq<string>, x: string)
    requires Intern(t, x) <= final
    ensures IndexOf(final, x) == IndexOf(Intern(t, x), x) < |Intern(t, x)| && Intern(t, x)[IndexOf(final, x)] == x
    ensures x !in t ==> IndexOf(final, x) == |t|
  {
    IndexOfMember(Intern(t, x), x);
    IndexOfStable(Intern(t, x), final, x);
    if x !in t { IndexNew(t, x); }
  }

  // A table that holds what it keeps, and the slot of x in both.
  predicate SameSlot(t: seq<string>, x: string, c: string, n: nat) {
    && Intern(Kept(t, n), c) == Kept(Intern(t, x), n)
    && Slot(Intern(Kept(t, n), c), c, n) == Slot(Intern(t, x), x, n)
  }

  lemma InternKept(t: seq<string>, final: seq<string>, x: string, n: nat)
    requires n > 0 && Intern(t, x) <= final && NoTwice(final)
    ensures SameSlot(t, x, Standing(final, n, x), n)
  {
    PlaceOf(t, final, x);
    if |final| <= n || IndexOf(final, x) < n { KeptHas(t, final, x, n); } else { KeptFull(t, final, x, n); }
  }

  // x has a slot of its own.
  lemma KeptHas(t: seq<string>, final: seq<string>, x: string, n: nat)
    requires n > 0 && Intern(t, x) <= final
    requires IndexOf(final, x) == IndexOf(Intern(t, x), x) < |Intern(t, x)| && Intern(t, x)[IndexOf(final, x)] == x
    requires (x !in t ==> IndexOf(final, x) == |t|) && IndexOf(final, x) < n
    ensures SameSlot(t, x, x, n)
  {
    if x in t {
      IndexOfMember(t, x);
      assert x in Kept(t, n) by { assert Kept(t, n)[IndexOf(t, x)] == x; }
      IndexOfStable(Kept(t, n), t, x);
    }
  }

  // x shares the last slot.
  lemma KeptFull(t: seq<string>, final: seq<string>, x: string, n: nat)
    requires 0 < n < |final| && Intern(t, x) <= final && NoTwice(final)
    requires n <= IndexOf(final, x) == IndexOf(Intern(t, x), x) < |Intern(t, x)|
    requires x !in t ==> IndexOf(final, x) == |t|
    ensures SameSlot(t, x, final[n - 1], n)
  {
    if x in t { IndexOfMember(t, x); }
    assert |t| >= n;
    var kept := Kept(t, n);
    assert kept == final[..n];
    assert kept[n - 1] == final[n - 1];
    NoTwiceBefore(kept, final);
    IndexAt(kept, n - 1);
  }

  lemma InternNoTwice(t: seq<string>, x: string)
    requires NoTwice(t)
    ensures NoTwice(Intern(t, x))
  {
  }

  lemma {:induction false} InternAllNoTwice(t: seq<string>, xs: seq<string>)
    requires NoTwice(t)
    ensures NoTwice(InternAll(t, xs))
  {
    if xs != [] {
      InternAllNoTwice(t, xs[..|xs| - 1]);
      InternNoTwice(InternAll(t, xs[..|xs| - 1]), xs[|xs| - 1]);
    }
  }

  // ----- programs -----

  predicate Clear(t: Tables) { NoTwice(t.vars) && NoTwice(t.strs) }

  function KeptOf(t: Tables): Tables { Tables(Kept(t.vars, MAX_VARS), Kept(t.strs, MAX_STRINGS)) }

  function StandingAll(final: seq<string>, args: seq<string>): (r: seq<string>)
    ensures |r| == |args|
  {
    if args == [] then []
    else StandingAll(final, args[..|args| - 1]) + [Standing(final, MAX_STRINGS, args[|args| - 1])]
  }

  function SharedExpr(e: Expr, final: Tables): Expr {
    match e
    case Num(_) => e
    case Str(s) => Str(Standing(final.strs, MAX_STRINGS, s))
    case Var(x) => Var(Standing(final.vars, MAX_VARS, x))
    case Bin(op, l, r) => Bin(op, SharedExpr(l, final), SharedExpr(r, final))
    case Native(id, args) => Native(id, StandingAll(final.strs, args))
  }

  // The program in which what shares a slot is one name or string.
  function Shared(s: Stmt, final: Tables): Stmt {
    match s
    case Print(e) => Print(SharedExpr(e, final))
    case Assign(x, e) => Assign(Standing(final.vars, MAX_VARS, x), SharedExpr(e, final))
    case Read(x) => Read(Standing(final.vars, MAX_VARS, x))
    case If(c, b) => If(SharedExpr(c, final), Shared(b, final))
    case IfElse(c, b, f) => IfElse(SharedExpr(c, final), Shared(b, final), Shared(f, final))
    case While(c, b) => While(SharedExpr(c, final), Shared(b, final))
    case Seq(s1, s2) => Seq(Shared(s1, final), Shared(s2, final))
    case _ => s
  }

  lemma {:induction false} ArgsShared(args: seq<string>, t: seq<string>, final: seq<string>)
    requires InternAll(t, args) <= final && NoTwice(final)
    ensures InternAll(Kept(t, MAX_STRINGS), StandingAll(final, args)) == Kept(InternAll(t, args), MAX_STRINGS)
    ensures PushArgs(StandingAll(final, args), Kept(t, MAX_STRINGS)) == PushArgs(args, t)
    decreases |args|
  {
    if args != [] {
      hide Slot, Kept, Intern, Standing;
      var init, last := args[..|args| - 1], args[|args| - 1];
      var shared := StandingAll(final, args);
      assert shared[..|shared| - 1] == StandingAll(final, init);
      InternAllPrefix(t, args, |args| - 1);
      PrefixOfPrefix(InternAll(t, init), InternAll(t, args), final);
      ArgsShared(init, t, final);
      InternKept(InternAll(t, init), final, last, MAX_STRINGS);
    }
  }

  // The code and the tables of an expression and of what stands for it.
  ghost predicate SameExpr(e: Expr, t: Tables, final: Tables) {
    var c := SharedExpr(e, final);
    && ExprSize(c) == ExprSize(e) && InternExpr(KeptOf(t), c) == KeptOf(InternExpr(t, e))
    && GenExpr(c, KeptOf(t)) == GenExpr(e, t)
  }

  lemma {:induction false} ExprShared(e: Expr, t: Tables, final: Tables)
    requires Extends(InternExpr(t, e), final) && Clear(final)
    ensures SameExpr(e, t, final)
    decreases e
  {
    hide Slot, Kept, Intern, Standing, NoTwice;
    match e
    case Num(_) =>
    case Str(s) => InternKept(t.strs, final.strs, s, MAX_STRINGS);
    case Var(x) => InternKept(t.vars, final.vars, x, MAX_VARS);
    case Bin(op, l, r) =>
      var t1 := InternExpr(t, l);
      InternExprGrows(t1, r);
      ExtendsTrans(t1, InternExpr(t1, r), final);
      ExprShared(l, t, final);
      ExprShared(r, t1, final);
      BinShared(op, l, r, t, final);
    case Native(_, args) => ArgsShared(args, t.strs, final.strs);
  }

  lemma BinShared(op: BinOp, l: Expr, r: Expr, t: Tables, final: Tables)
    requires SameExpr(l, t, final) && SameExpr(r, InternExpr(t, l), final)
    ensures SameExpr(Bin(op, l, r), t, final)
  {
    GenBin(op, l, r, t);
    GenBin(op, SharedExpr(l, final), SharedExpr(r, final), KeptOf(t));
    hide GenExpr, InternExpr, KeptOf;
  }

  ghost predicate SameStmt(s: Stmt, a: nat, x: Exits, t: Tables, final: Tables) {
    var c := Shared(s, final);
    && StmtSize(c) == StmtSize(s) && InternStmt(KeptOf(t), c) == KeptOf(InternStmt(t, s))
    && GenStmt(c, a, x.brk, x.cont, KeptOf(t)) == GenStmt(s, a, x.brk, x.cont, t)
  }

  // The parts' tables lead to the final one.
  lemma PartsExtend(s: Stmt, t: Tables, final: Tables)
    requires Extends(InternStmt(t, s), final)
    ensures (s.If? || s.IfElse? || s.While?) ==> Extends(InternExpr(t, s.cond), final)
    ensures (s.If? || s.IfElse?) ==> Extends(InternStmt(InternExpr(t, s.cond), s.thn), final)
    ensures s.IfElse? ==> Extends(InternStmt(InternStmt(InternExpr(t, s.cond), s.thn), s.els), final)
    ensures s.While? ==> Extends(InternStmt(InternExpr(t, s.cond), s.body), final)
    ensures s.Seq? ==> Extends(InternStmt(t, s.first), final)
    ensures s.Seq? ==> Extends(InternStmt(InternStmt(t, s.first), s.second), final)
    ensures (s.Print? || s.Assign?) ==> Extends(InternExpr(t, s.e), final)
  {
    hide InternExpr, Extends, Intern;
    match s
    case Assign(x, e) => VarExtends(InternExpr(t, e), x, final);
    case If(c, b) => StmtExtends(b, InternExpr(t, c), final);
    case IfElse(c, b, f) =>
      StmtExtends(f, InternStmt(InternExpr(t, c), b), final);
      StmtExtends(b, InternExpr(t, c), final);
    case While(c, b) => StmtExtends(b, InternExpr(t, c), final);
    case Seq(s1, s2) => StmtExtends(s2, InternStmt(t, s1), final);
    case _ =>
  }

  lemma VarExtends(t: Tables, x: string, final: Tables)
    requires Extends(t.(vars := Intern(t.vars, x)), final)
    ensures Extends(t, final)
  {
  }

  lemma StmtExtends(s: Stmt, t: Tables, final: Tables)
    requires Extends(InternStmt(t, s), final)
    ensures Extends(t, final)
  {
    hide InternStmt, Extends;
    InternStmtGrows(t, s);
    ExtendsTrans(t, InternStmt(t, s), final);
  }

  lemma {:induction false} StmtShared(s: Stmt, a: nat, x: Exits, t: Tables, final: Tables)
    requires Extends(InternStmt(t, s), final) && Clear(final)
    ensures SameStmt(s, a, x, t, final)
    decreases s
  {
    hide SameStmt, SameExpr, Extends, Clear, InternStmt, StmtSize;
    PartsExtend(s, t, final);
    match s
    case Print(e) => UseShared(s, a, x, t, final);
    case Assign(_, e) => UseShared(s, a, x, t, final);
    case If(c, b) =>
      ExprShared(c, t, final);
      StmtShared(b, a + ExprSize(c) + 1, x, InternExpr(t, c), final);
      IfShared(c, b, a, x, t, final);
    case IfElse(c, b, f) =>
      var t1, start := InternExpr(t, c), a + ExprSize(c) + 1;
      ExprShared(c, t, final);
      StmtShared(b, start, x, t1, final);
      StmtShared(f, start + StmtSize(b) + 1, x, InternStmt(t1, b), final);
      IfElseShared(c, b, f, a, x, t, final);
    case While(c, b) =>
      var start := a + ExprSize(c) + 1;
      ExprShared(c, t, final);
      StmtShared(b, start, Exits(start + StmtSize(b) + 1, a), InternExpr(t, c), final);
      WhileShared(c, b, a, x, t, final);
    case Seq(s1, s2) =>
      StmtShared(s1, a, x, t, final);
      StmtShared(s2, a + StmtSize(s1), x, InternStmt(t, s1), final);
      SeqShared(s1, s2, a, x, t, final);
    case Read(y) => ReadShared(y, a, x, t, final);
    case _ => PlainShared(s, a, x, t, final);
  }

  lemma PlainShared(s: Stmt, a: nat, x: Exits, t: Tables, final: Tables)
    requires s.Skip? || s.Break? || s.Continue?
    ensures SameStmt(s, a, x, t, final)
  {
  }

  lemma ReadShared(y: string, a: nat, x: Exits, t: Tables, final: Tables)
    requires Extends(InternStmt(t, Read(y)), final) && Clear(final)
    ensures SameStmt(Read(y), a, x, t, final)
  {
    InternKept(t.vars, final.vars, y, MAX_VARS);
    hide Slot, Kept, Intern, Standing, NoTwice;
  }

  lemma UseShared(s: Stmt, a: nat, x: Exits, t: Tables, final: Tables)
    requires (s.Print? || s.Assign?) && Extends(InternStmt(t, s), final) && Clear(final)
    requires Extends(InternExpr(t, s.e), final)
    ensures SameStmt(s, a, x, t, final)
  {
    ExprShared(s.e, t, final);
    if s.Assign? { InternKept(InternExpr(t, s.e).vars, final.vars, s.x, MAX_VARS); }
    hide Slot, Kept, Intern, Standing, NoTwice, GenExpr, InternExpr;
  }

  lemma GuardShared(c: Expr, t: Tables, final: Tables, target: int)
    requires SameExpr(c, t, final)
    ensures Guard(SharedExpr(c, final), KeptOf(t), target) == Guard(c, t, target)
  {
    hide GenExpr, InternExpr, KeptOf;
  }

  lemma IfShared(c: Expr, b: Stmt, a: nat, x: Exits, t: Tables, final: Tables)
    requires SameExpr(c, t, final) && SameStmt(b, a + ExprSize(c) + 1, x, InternExpr(t, c), final)
    ensures SameStmt(If(c, b), a, x, t, final)
  {
    hide GenExpr, GenStmt, InternExpr, InternStmt, StmtSize, ExprSize, Shared, SharedExpr, KeptOf, Guard;
    var c', b' := SharedExpr(c, final), Shared(b, final);
    SharedBranch(c, b, final);
    IfTables(c, b, t);
    IfTables(c', b', KeptOf(t));
    GenIfIs(c, b, a, x.brk, x.cont, t);
    GenIfIs(c', b', a, x.brk, x.cont, KeptOf(t));
    GuardShared(c, t, final, a + ExprSize(c) + 1 + StmtSize(b));
  }

  lemma SharedBranch(c: Expr, b: Stmt, final: Tables)
    ensures Shared(If(c, b), final) == If(SharedExpr(c, final), Shared(b, final))
    ensures Shared(While(c, b), final) == While(SharedExpr(c, final), Shared(b, final))
    ensures forall f ::
      Shared(IfElse(c, b, f), final) == IfElse(SharedExpr(c, final), Shared(b, final), Shared(f, final))
  {
  }

  lemma IfElseShared(c: Expr, b: Stmt, f: Stmt, a: nat, x: Exits, t: Tables, final: Tables)
    requires SameExpr(c, t, final)
    requires
      var t1, start := InternExpr(t, c), a + ExprSize(c) + 1;
      SameStmt(b, start, x, t1, final) && SameStmt(f, start + StmtSize(b) + 1, x, InternStmt(t1, b), final)
    ensures SameStmt(IfElse(c, b, f), a, x, t, final)
  {
    hide GenExpr, GenStmt, InternExpr, InternStmt, StmtSize, ExprSize, Shared, SharedExpr, KeptOf, Guard;
    var c', b', f' := SharedExpr(c, final), Shared(b, final), Shared(f, final);
    SharedBranch(c, b, final);
    IfElseTables(c, b, f, t);
    IfElseTables(c', b', f', KeptOf(t));
    GenIfElseIs(c, b, f, a, x.brk, x.cont, t);
    GenIfElseIs(c', b', f', a, x.brk, x.cont, KeptOf(t));
    GuardShared(c, t, final, a + ExprSize(c) + 1 + StmtSize(b) + 1);
  }

  lemma WhileShared(c: Expr, b: Stmt, a: nat, x: Exits, t: Tables, final: Tables)
    requires SameExpr(c, t, final)
    requires
      var start := a + ExprSize(c) + 1;
      SameStmt(b, start, Exits(start + StmtSize(b) + 1, a), InternExpr(t, c), final)
    ensures SameStmt(While(c, b), a, x, t, final)
  {
    hide GenExpr, GenStmt, InternExpr, InternStmt, StmtSize, ExprSize, Shared, SharedExpr, KeptOf, Guard;
    var c', b' := SharedExpr(c, final), Shared(b, final);
    SharedBranch(c, b, final);
    WhileTables(c, b, t);
    WhileTables(c', b', KeptOf(t));
    GenWhileIs(c, b, a, x.brk, x.cont, t);
    GenWhileIs(c', b', a, x.brk, x.cont, KeptOf(t));
    GuardShared(c, t, final, a + ExprSize(c) + 1 + StmtSize(b) + 1);
  }

  lemma SeqShared(s1: Stmt, s2: Stmt, a: nat, x: Exits, t: Tables, final: Tables)
    requires SameStmt(s1, a, x, t, final) && SameStmt(s2, a + StmtSize(s1), x, InternStmt(t, s1), final)
    ensures SameStmt(Seq(s1, s2), a, x, t, final)
  {
    hide GenStmt, InternStmt, StmtSize, Shared, KeptOf;
    var p, q := Shared(s1, final), Shared(s2, final);
    SharedSeq(s1, s2, final);
    SeqTables(s1, s2, t);
    SeqTables(p, q, KeptOf(t));
    GenSeqIs(s1, s2, a, x.brk, x.cont, t);
    GenSeqIs(p, q, a, x.brk, x.cont, KeptOf(t));
  }

  lemma SharedSeq(s1: Stmt, s2: Stmt, final: Tables)
    ensures Shared(Seq(s1, s2), final) == Seq(Shared(s1, final), Shared(s2, final))
  {
  }

  // ----- what does not change -----

  lemma {:induction false} ExprClear(e: Expr, t: Tables)
    requires Clear(t)
    ensures Clear(InternExpr(t, e))
    decreases e
  {
    hide NoTwice;
    match e
    case Str(s) => InternNoTwice(t.strs, s);
    case Var(x) => InternNoTwice(t.vars, x);
    case Bin(_, l, r) =>
      ExprClear(l, t);
      ExprClear(r, InternExpr(t, l));
    case Native(_, args) => InternAllNoTwice(t.strs, args);
    case _ =>
  }

  lemma {:induction false} StmtClear(s: Stmt, t: Tables)
    requires Clear(t)
    ensures Clear(InternStmt(t, s))
    decreases s
  {
    hide NoTwice, InternExpr;
    match s
    case Print(e) => ExprClear(e, t);
    case Assign(x, e) =>
      ExprClear(e, t);
      InternNoTwice(InternExpr(t, e).vars, x);
    case Read(x) => InternNoTwice(t.vars, x);
    case If(c, b) =>
      ExprClear(c, t);
      StmtClear(b, InternExpr(t, c));
    case IfElse(c, b, f) =>
      var t1 := InternExpr(t, c);
      ExprClear(c, t);
      StmtClear(b, t1);
      StmtClear(f, InternStmt(t1, b));
    case While(c, b) =>
      ExprClear(c, t);
      StmtClear(b, InternExpr(t, c));
    case Seq(s1, s2) =>
      StmtClear(s1, t);
      StmtClear(s2, InternStmt(t, s1));
    case _ =>
  }

  lemma {:induction false} ExprAlike(e: Expr, final: Tables)
    ensures Depth(SharedExpr(e, final)) == Depth(e) && Arities(SharedExpr(e, final)) == Arities(e)
  {
    if e.Bin? {
      ExprAlike(e.left, final);
      ExprAlike(e.right, final);
    }
  }

  lemma {:induction false} StmtAlike(s: Stmt, final: Tables)
    ensures Runnable(Shared(s, final)) == Runnable(s) && JumpFree(Shared(s, final)) == JumpFree(s)
    ensures LoopsFit(Shared(s, final)) == LoopsFit(s)
    ensures forall breaks :: JumpCount(Shared(s, final), breaks) == JumpCount(s, breaks)
  {
    hide SharedExpr, Depth, Arities;
    match s
    case Print(e) => ExprAlike(e, final);
    case Assign(_, e) => ExprAlike(e, final);
    case If(c, b) =>
      ExprAlike(c, final);
      StmtAlike(b, final);
    case IfElse(c, b, f) =>
      ExprAlike(c, final);
      StmtAlike(b, final);
      StmtAlike(f, final);
    case While(c, b) =>
      ExprAlike(c, final);
      StmtAlike(b, final);
    case Seq(s1, s2) =>
      StmtAlike(s1, final);
      StmtAlike(s2, final);
    case _ =>
  }

  lemma {:induction false} ArgsAlone(final: seq<string>, args: seq<string>)
    requires |final| <= MAX_STRINGS
    ensures StandingAll(final, args) == args
    decreases |args|
  {
    if args != [] { ArgsAlone(final, args[..|args| - 1]); }
  }

  lemma {:induction false} ExprAlone(e: Expr, final: Tables)
    requires TablesFit(final)
    ensures SharedExpr(e, final) == e
  {
    match e
    case Bin(_, l, r) =>
      ExprAlone(l, final);
      ExprAlone(r, final);
    case Native(_, args) => ArgsAlone(final.strs, args);
    case _ =>
  }

  // Where each name and string has a slot, nothing is shared.
  lemma {:induction false} SharedAlone(s: Stmt, final: Tables)
    requires TablesFit(final)
    ensures Shared(s, final) == s
  {
    hide SharedExpr;
    match s
    case Print(e) => ExprAlone(e, final);
    case Assign(_, e) => ExprAlone(e, final);
    case If(c, b) =>
      ExprAlone(c, final);
      SharedAlone(b, final);
    case IfElse(c, b, f) =>
      ExprAlone(c, final);
      SharedAlone(b, final);
      SharedAlone(f, final);
    case While(c, b) =>
      ExprAlone(c, final);
      SharedAlone(b, final);
    case Seq(s1, s2) =>
      SharedAlone(s1, final);
      SharedAlone(s2, final);
    case _ =>
  }

  // What a program stands for: itself, with what shares a slot made one.
  function Meant(prog: Stmt): Stmt { Shared(prog, FinalTables(prog)) }

  // Compiling a program with too many names or strings gives the code and the pool of the one in which they are
  // shared, and that one has a slot for each.
  lemma SharedSlots(prog: Stmt, w: World)
    requires CodeFits(prog) && Runnable(prog) && JumpFree(prog)
    ensures LelyaSafety.Compiled(prog, w) == Load(Meant(prog), w) && Accepted(Meant(prog))
  {
    hide GenStmt, InternStmt, SharedExpr, Shared, Runnable, JumpFree, LoopsFit, StmtSize, Kept, NoTwice;
    var final := FinalTables(prog);
    NothingClear();
    StmtClear(prog, NO_TABLES);
    ExtendsItself(final);
    StmtShared(prog, 0, Exits(0, 0), NO_TABLES, final);
    StmtAlike(prog, final);
  }

  lemma NothingClear()
    ensures Clear(NO_TABLES) && KeptOf(NO_TABLES) == NO_TABLES
  {
  }

  lemma ExtendsItself(t: Tables)
    ensures Extends(t, t)
  {
  }
}
