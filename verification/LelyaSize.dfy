// How much code a text without quotes has. Reading goes back in such a text as in any other: the condition of an
// if and the arguments of a native call are passed over again by the statements that follow. But what has been
// compiled once is not compiled again, because it lies behind a closing parenthesis or a comma that no reading
// from inside gets past.
module LelyaSize {
  import opened LelyaSyntax
  import opened LelyaGrammar
  import opened LelyaCode
  import opened LelyaCompiler
  import opened LelyaBounds

  // ----- the depth of parentheses -----

  function Weight(c: char): int { if c == '(' then 1 else if c == ')' then -1 else 0 }

  // Open parentheses before position i.
  function Level(src: string, i: nat): int
    requires i <= |src|
  {
    if i == 0 then 0 else Level(src, i - 1) + Weight(src[i - 1])
  }

  lemma LevelNext(src: string, i: nat)
    requires i < |src|
    ensures Level(src, i + 1) == Level(src, i) + Weight(src[i])
  {
  }

  predicate Ends(c: char) { c == ')' || c == ',' }

  // Between t and j the depth does not fall below that at t, and nothing at that depth ends.
  predicate Deep(src: string, t: nat, j: nat)
    requires t <= j <= |src|
  {
    && Level(src, j) >= Level(src, t)
    && forall y :: t <= y < j ==> Level(src, y) >= Level(src, t) && (Ends(src[y]) ==> Level(src, y) > Level(src, t))
  }

  lemma DeepTrans(src: string, a: nat, b: nat, c: nat)
    requires a <= b <= c <= |src| && Deep(src, a, b) && Deep(src, b, c)
    ensures Deep(src, a, c)
  {
  }

  predicate Plain(src: string, i: nat, j: nat)
    requires j <= |src|
  {
    forall y :: i <= y < j ==> src[y] != '(' && !Ends(src[y])
  }

  lemma {:induction false} PlainDeep(src: string, i: nat, j: nat)
    requires i <= j <= |src| && Plain(src, i, j)
    ensures Level(src, j) == Level(src, i) && Deep(src, i, j)
    decreases j
  {
    if i < j {
      hide Level;
      PlainDeep(src, i, j - 1);
      LevelNext(src, j - 1);
    }
  }

  lemma {:induction false} InlinePlain(src: string, i: nat)
    requires i <= |src|
    ensures Plain(src, i, SkipInline(src, i))
    ensures forall y :: i <= y < SkipInline(src, i) ==> IsInlineSpace(src[y])
    decreases |src| - i
  {
    if IsInlineSpace(At(src, i)) { InlinePlain(src, i + 1); }
  }

  lemma InlineDeep(src: string, i: nat)
    requires i <= |src|
    ensures Level(src, SkipInline(src, i)) == Level(src, i) && Deep(src, i, SkipInline(src, i))
  {
    hide SkipInline, Plain;
    InlinePlain(src, i);
    PlainDeep(src, i, SkipInline(src, i));
  }

  // ----- what a reading from c does not reach -----

  // Before q there is an end at a depth not above that at c.
  predicate Fenced(src: string, c: nat, q: nat)
    requires c <= q <= |src|
  {
    exists y :: c <= y < q && Ends(src[y]) && Level(src, y) <= Level(src, c)
  }

  lemma FencedOn(src: string, c: nat, q: nat, r: nat)
    requires c <= q <= r <= |src| && Fenced(src, c, q)
    ensures Fenced(src, c, r)
  {
    var y :| c <= y < q && Ends(src[y]) && Level(src, y) <= Level(src, c);
    assert c <= y < r && Ends(src[y]) && Level(src, y) <= Level(src, c);
  }

  // No statement starts with one of these: the line is skipped.
  predicate Closing(c: char) {
    || c == ')' || c == '+' || c == '-' || c == '*' || c == '/'
    || c == '=' || c == '!' || c == '<' || c == '>' || c == '\0'
  }

  predicate Shut(src: string, c: nat)
    requires c <= |src|
  {
    Closing(At(src, SkipInline(src, c)))
  }

  predicate Blocked(src: string, c: nat, q: nat)
    requires c <= q <= |src|
  {
    Fenced(src, c, q) || Shut(src, c)
  }

  // Where statements can be read from after an expression that starts at t: a line end or after a parenthesis.
  predicate ExitIn(src: string, t: nat, c: nat)
    requires c <= |src|
  {
    (t <= c < |src| && src[c] == '\n') || (t < c && src[c - 1] == ')')
  }

  predicate Leaves(src: string, c: nat, j: nat)
    requires c <= j <= |src|
  {
    Blocked(src, c, j) || SkipInline(src, c) == SkipInline(src, j) || At(src, j) == '\0'
  }

  // ----- expressions -----

  // The places q of an operator or a native call in an expression read from t to j.
  ghost predicate Span(src: string, e: Expr, t: nat, j: nat, ops: set<nat>)
    requires t <= j <= |src|
  {
    && (forall q :: q in ops ==> t <= q < j)
    && ExprSize(e) <= 2 * |ops| + 1 && Deep(src, t, j)
    && (forall q :: q in ops ==> Unread(src, t, q))
    && AllLeave(src, t, j)
  }

  ghost predicate AllLeave(src: string, t: nat, j: nat)
    requires j <= |src|
  {
    forall c :: 0 <= c <= j && ExitIn(src, t, c) ==> Leaves(src, c, j)
  }

  // Nothing read from an exit before q gets to q.
  ghost predicate Unread(src: string, t: nat, q: int)
    requires q <= |src|
  {
    forall c :: 0 <= c <= q && ExitIn(src, t, c) ==> Blocked(src, c, q)
  }

  // A number, a name, or nothing.
  lemma SpanLeaf(src: string, e: Expr, i: nat, j: nat)
    requires i <= j <= |src| && ExprSize(e) == 1 && Plain(src, i, j)
    requires forall y :: i <= y < j ==> src[y] != '\n'
    ensures Span(src, e, i, j, {})
  {
    PlainDeep(src, i, j);
    hide Level, Deep, SkipInline, Fenced;
    forall c | 0 <= c <= j && ExitIn(src, i, c) ensures Leaves(src, c, j) {
      assert c == j;
    }
  }

  // Spaces before an expression.
  lemma SpanPre(src: string, e: Expr, i: nat, j: nat, ops: set<nat>)
    requires i <= |src| && SkipInline(src, i) <= j <= |src| && Span(src, e, SkipInline(src, i), j, ops)
    ensures Span(src, e, i, j, ops)
  {
    var k := SkipInline(src, i);
    InlinePlain(src, i);
    InlineDeep(src, i);
    DeepTrans(src, i, k, j);
    hide Level, Deep, SkipInline, Blocked, Leaves;
    forall c | 0 <= c <= |src| && ExitIn(src, i, c) ensures ExitIn(src, k, c) {
    }
  }

  // Spaces after it.
  lemma SpanPad(src: string, e: Expr, t: nat, i: nat, ops: set<nat>)
    requires t <= i <= |src| && Span(src, e, t, i, ops)
    ensures Span(src, e, t, SkipInline(src, i), ops)
  {
    var k := SkipInline(src, i);
    InlinePlain(src, i);
    InlineDeep(src, i);
    DeepTrans(src, t, i, k);
    SkipTwice(src, i);
    hide Level, Deep;
    forall c | 0 <= c <= k && ExitIn(src, t, c) ensures Leaves(src, c, k) {
      if c <= i {
        LeavesOn(src, c, i);
      } else {
        assert c == k;
      }
    }
  }

  lemma LeavesOn(src: string, c: nat, i: nat)
    requires c <= i <= |src| && Leaves(src, c, i)
    ensures Leaves(src, c, SkipInline(src, i))
  {
    SkipTwice(src, i);
    hide Level, Fenced;
    if Fenced(src, c, i) { FencedOn(src, c, i, SkipInline(src, i)); }
  }

  // Where an operator follows, nothing gets past it.
  lemma LeavesBlocked(src: string, c: nat, i: nat, n: nat, q: nat)
    requires c <= i <= |src| && Leaves(src, c, i) && SkipInline(src, i) <= q <= |src|
    requires n <= |src| && OperatorAt(src, SkipInline(src, i), n)
    ensures Blocked(src, c, q)
  {
    hide Level, Fenced, Closing, Plain;
    if Fenced(src, c, i) { FencedOn(src, c, i, q); }
  }

  // The operator of one or two characters after an operand.
  predicate OperatorAt(src: string, k: nat, n: nat)
    requires n <= |src|
  {
    && k < n && Closing(src[k]) && src[k] != ')' && src[k] != '\0'
    && Plain(src, k, n) && (forall y :: k <= y < n ==> src[y] != '\n')
  }

  // Two operands and the operator between them.
  lemma SpanBin(src: string, op: BinOp, l: Expr, r: Expr, t: nat, i: nat, n: nat, j: nat, left: set<nat>,
                right: set<nat>)
    requires t <= i <= |src| && n <= j <= |src| && Span(src, l, t, i, left)
    requires OperatorAt(src, SkipInline(src, i), n) && Span(src, r, n, j, right)
    ensures Span(src, Bin(op, l, r), t, j, left + {SkipInline(src, i)} + right)
  {
    var k := SkipInline(src, i);
    var ops := left + {k} + right;
    BinDeep(src, t, i, n, j);
    ThreeParts(left, k, right, i, n);
    hide Level, Deep, SkipInline, AllLeave, Unread, OperatorAt;
    BinLeaves(src, t, i, n, j);
    forall q | q in ops ensures Unread(src, t, q) {
      if q !in left { BinUnread(src, t, i, n, q); }
    }
  }

  lemma BinDeep(src: string, t: nat, i: nat, n: nat, j: nat)
    requires t <= i <= |src| && n <= j <= |src| && OperatorAt(src, SkipInline(src, i), n)
    requires Deep(src, t, i) && Deep(src, n, j)
    ensures Deep(src, t, j)
  {
    hide Level, Deep, SkipInline;
    InlineDeep(src, i);
    PlainDeep(src, SkipInline(src, i), n);
    DeepTrans(src, t, i, SkipInline(src, i));
    DeepTrans(src, t, SkipInline(src, i), n);
    DeepTrans(src, t, n, j);
  }

  lemma BinLeaves(src: string, t: nat, i: nat, n: nat, j: nat)
    requires t <= i <= |src| && n <= j <= |src| && OperatorAt(src, SkipInline(src, i), n)
    requires AllLeave(src, t, i) && AllLeave(src, n, j)
    ensures AllLeave(src, t, j)
  {
    hide SkipInline, Blocked, ExitIn, OperatorAt;
    OperatorIs(src, SkipInline(src, i), n);
    forall c | 0 <= c <= j && ExitIn(src, t, c) ensures Leaves(src, c, j) {
      if c <= i { LeavesBlocked(src, c, i, n, j); } else { ExitAfter(src, t, i, n, c); }
    }
  }

  lemma BinUnread(src: string, t: nat, i: nat, n: nat, q: nat)
    requires t <= i <= |src| && n <= |src| && q <= |src| && OperatorAt(src, SkipInline(src, i), n)
    requires AllLeave(src, t, i) && (q == SkipInline(src, i) || (n <= q && Unread(src, n, q)))
    ensures Unread(src, t, q)
  {
    hide SkipInline, Blocked, ExitIn, Leaves, OperatorAt;
    OperatorIs(src, SkipInline(src, i), n);
    forall c | 0 <= c <= q && ExitIn(src, t, c) ensures Blocked(src, c, q) {
      if c <= i { LeavesBlocked(src, c, i, n, q); } else { ExitAfter(src, t, i, n, c); }
    }
  }

  lemma OperatorIs(src: string, k: nat, n: nat)
    requires n <= |src| && OperatorAt(src, k, n)
    ensures k < n
  {
  }

  lemma ThreeParts(left: set<nat>, k: nat, right: set<nat>, i: nat, n: nat)
    requires (forall q :: q in left ==> q < i) && i <= k < n && forall q :: q in right ==> n <= q
    ensures |left + {k} + right| == |left| + 1 + |right|
  {
    assert left !! {k} && left + {k} !! right;
  }

  // An exit behind some spaces and an operator is one of what follows.
  lemma ExitAfter(src: string, t: nat, i: nat, n: nat, c: nat)
    requires t <= i < c <= |src| && n <= |src| && OperatorAt(src, SkipInline(src, i), n) && ExitIn(src, t, c)
    ensures ExitIn(src, n, c) && n <= c
  {
    hide SkipInline, Closing;
    InlinePlain(src, i);
  }

  // An expression in parentheses, the closing one not always there.
  lemma SpanParens(src: string, e: Expr, i: nat, j: nat, ops: set<nat>)
    requires i < |src| && src[i] == '(' && i + 1 <= j <= |src| && Span(src, e, i + 1, j, ops)
    ensures
      var k := SkipInline(src, j);
      Span(src, e, i, if At(src, k) == ')' then k + 1 else k, ops)
  {
    hide Level, Deep, AllLeave, Unread, SkipInline;
    var k := SkipInline(src, j);
    var end := if At(src, k) == ')' then k + 1 else k;
    SpanPad(src, e, i + 1, j, ops);
    ParensDeep(src, i, k, end);
    SkipTwice(src, j);
    ParensLeaves(src, i, k, end);
    forall q | q in ops ensures Unread(src, i, q) { ParensUnread(src, i, q); }
  }

  lemma ParensUnread(src: string, i: nat, q: nat)
    requires i < q <= |src| && src[i] == '(' && Unread(src, i + 1, q)
    ensures Unread(src, i, q)
  {
    hide Blocked, ExitIn;
    forall c | 0 <= c <= q && ExitIn(src, i, c) ensures Blocked(src, c, q) { ExitInParens(src, i, c); }
  }

  lemma ExitInParens(src: string, i: nat, c: nat)
    requires i < |src| && src[i] == '(' && c <= |src| && ExitIn(src, i, c)
    ensures ExitIn(src, i + 1, c)
  {
  }

  lemma ParensLeaves(src: string, i: nat, k: nat, end: nat)
    requires i < k <= end <= |src| && src[i] == '(' && AllLeave(src, i + 1, k) && SkipInline(src, k) == k
    requires end == k || (end == k + 1 && src[k] == ')')
    ensures AllLeave(src, i, end)
  {
    hide Leaves, ExitIn, SkipInline;
    forall c | 0 <= c <= end && ExitIn(src, i, c) ensures Leaves(src, c, end) {
      ExitInParens(src, i, c);
      if c <= k { ParensLeave(src, c, k, end); } else { LeavesHere(src, end); }
    }
  }

  lemma LeavesHere(src: string, c: nat)
    requires c <= |src|
    ensures Leaves(src, c, c)
  {
  }

  lemma ParensLeave(src: string, c: nat, k: nat, end: nat)
    requires c <= k <= end <= |src| && Leaves(src, c, k) && SkipInline(src, k) == k
    requires end == k || (end == k + 1 && src[k] == ')')
    ensures Leaves(src, c, end)
  {
    hide Level, Fenced, SkipInline;
    if Fenced(src, c, k) { FencedOn(src, c, k, end); }
  }

  lemma ParensDeep(src: string, i: nat, k: nat, end: nat)
    requires i < k <= end <= |src| && src[i] == '(' && Deep(src, i + 1, k)
    requires end == k || (end == k + 1 && src[k] == ')')
    ensures Deep(src, i, end)
  {
    LevelNext(src, i);
    if end == k + 1 { LevelNext(src, k); }
    hide Level;
  }

  // ----- names, numbers and native calls -----

  predicate NoQuote(src: string) { QUOTE !in src }

  lemma NotQuote(src: string, i: nat)
    requires NoQuote(src)
    ensures At(src, i) != QUOTE
  {
  }

  lemma {:induction false} IdentPlain(src: string, i: nat)
    requires i <= |src|
    ensures forall y :: i <= y < IdentEnd(src, i) ==> IsIdentChar(src[y])
    decreases |src| - i
  {
    if IsIdentChar(At(src, i)) { IdentPlain(src, i + 1); }
  }

  lemma {:induction false} DigitsPlain(src: string, i: nat, v: int)
    requires i <= |src|
    ensures forall y :: i <= y < Digits(src, i, v).1 ==> IsDigit(src[y])
    decreases |src| - i
  {
    hide Wrap32;
    if IsDigit(At(src, i)) { DigitsPlain(src, i + 1, Wrap32(v * 10 + (src[i] - '0') as int)); }
  }

  predicate Above(src: string, i: nat, j: nat, level: int)
    requires j <= |src|
  {
    forall y :: i <= y <= j ==> Level(src, y) >= level
  }

  lemma AboveNext(src: string, i: nat, j: nat, level: int)
    requires i < j <= |src| && Level(src, i) >= level && Above(src, i + 1, j, level)
    ensures Above(src, i, j, level)
  {
    hide Level;
    forall y | i <= y <= j ensures Level(src, y) >= level {
      if y != i { assert i + 1 <= y; }
    }
  }

  // An argument ends at the depth it starts at, and does not fall below.
  lemma {:induction false} ArgRegion(src: string, i: nat, depth: nat)
    requires NoQuote(src) && i <= |src|
    ensures
      var r, level := ArgEnd(src, i, depth, false), Level(src, i) - depth;
      && Above(src, i, r, level)
      && (At(src, r) == '\0' || (r < |src| && Ends(src[r]) && Level(src, r) == level))
    decreases |src| - i
  {
    hide Level, Above;
    var c := At(src, i);
    NotQuote(src, i);
    if c == '\0' || (c == ')' && depth == 0) || (c == ',' && depth == 0) {
      AboveHere(src, i, Level(src, i) - depth);
    } else {
      var next := if c == '(' then depth + 1 else if c == ')' then depth - 1 else depth;
      LevelNext(src, i);
      ArgRegion(src, i + 1, next);
      AboveNext(src, i, ArgEnd(src, i + 1, next, false), Level(src, i) - depth);
    }
  }

  lemma AboveHere(src: string, i: nat, level: int)
    requires i <= |src| && Level(src, i) >= level
    ensures Above(src, i, i, level)
  {
  }

  // The arguments of a call from i, up to after their closing parenthesis, or to where they are given up.
  ghost predicate Region(src: string, i: nat, j: nat, done: bool, level: int)
    requires i <= j <= |src|
  {
    && AllLeave(src, i, j)
    && (if done then i < j && src[j - 1] == ')' && Level(src, j - 1) == level && Above(src, i, j - 1, level)
        else Above(src, i, j, level))
  }

  lemma {:induction false} ArgsRegion(src: string, i: nat, args: seq<string>)
    requires NoQuote(src) && i <= |src|
    ensures
      var (r, j) := NativeArgs(src, i, args);
      Region(src, i, j, r.Some?, Level(src, i))
    decreases |src| - i
  {
    hide Level, Above, AllLeave, SkipInline, ArgEnd, ArgText;
    var level, start := Level(src, i), SkipInline(src, i);
    var end := ArgEnd(src, start, 0, false);
    LeaveHere(src, i);
    AboveHere(src, i, level);
    if |args| < MAX_NATIVE_ARGS && end != start {
      InlineDeep(src, i);
      ArgRegion(src, start, 0);
      InlineAbove(src, i, end, level);
      EndNotInline(src, end);
      if At(src, end) == ',' {
        var next := SkipInline(src, end + 1);
        ArgsRegion(src, next, args + [ArgText(src, start, end)]);
        CommaLevel(src, end);
        CommaRegion(src, i, end, NativeArgs(src, next, args + [ArgText(src, start, end)]).1,
                    NativeArgs(src, next, args + [ArgText(src, start, end)]).0.Some?, level);
      } else if At(src, end) == ')' {
        DoneLeave(src, i, end, level);
      } else {
        LostLeave(src, i, end);
      }
    }
  }

  lemma LeaveHere(src: string, i: nat)
    requires i <= |src|
    ensures AllLeave(src, i, i)
  {
  }

  lemma LostLeave(src: string, i: nat, j: nat)
    requires i <= j <= |src| && At(src, j) == '\0'
    ensures AllLeave(src, i, j)
  {
  }

  lemma EndNotInline(src: string, end: nat)
    requires end <= |src| && (At(src, end) == '\0' || (end < |src| && Ends(src[end])))
    ensures SkipInline(src, end) == end
  {
  }

  lemma InlineAbove(src: string, i: nat, j: nat, level: int)
    requires i <= |src| && SkipInline(src, i) <= j <= |src| && Level(src, i) >= level
    requires Above(src, SkipInline(src, i), j, level)
    ensures Above(src, i, j, level)
  {
    var k := SkipInline(src, i);
    InlineDeep(src, i);
    hide Level, SkipInline;
    forall y | i <= y <= j ensures Level(src, y) >= level {
      if y < k { assert Level(src, y) >= Level(src, i); }
    }
  }

  lemma DoneLeave(src: string, i: nat, end: nat, level: int)
    requires i <= end < |src| && src[end] == ')' && Level(src, end) == level && Above(src, i, end, level)
    ensures AllLeave(src, i, end + 1)
  {
    hide Level, SkipInline;
    forall c | 0 <= c <= end + 1 && ExitIn(src, i, c) ensures Leaves(src, c, end + 1) {
      if c <= end { assert Ends(src[end]) && Level(src, end) <= Level(src, c); }
    }
  }

  lemma CommaLevel(src: string, end: nat)
    requires end < |src| && src[end] == ','
    ensures Level(src, SkipInline(src, end + 1)) == Level(src, end)
  {
    LevelNext(src, end);
    InlineDeep(src, end + 1);
  }

  // One argument and its comma, and the arguments after it.
  lemma CommaRegion(src: string, i: nat, end: nat, j: nat, done: bool, level: int)
    requires i <= end < |src| && src[end] == ',' && Level(src, end) == level && Above(src, i, end, level)
    requires
      var next := SkipInline(src, end + 1);
      next <= j <= |src| && Level(src, next) == level && Region(src, next, j, done, level)
    ensures Region(src, i, j, done, level)
  {
    var next := SkipInline(src, end + 1);
    CommaAbove(src, i, end, if done then j - 1 else j, level);
    hide Level, Above;
    CommaLeave(src, i, end, j, level);
  }

  lemma CommaAbove(src: string, i: nat, end: nat, j: nat, level: int)
    requires i <= end < |src| && src[end] == ',' && Above(src, i, end, level)
    requires
      var next := SkipInline(src, end + 1);
      next <= j <= |src| && Level(src, next) == level && Above(src, next, j, level)
    ensures Above(src, i, j, level)
  {
    CommaLevel(src, end);
    LevelNext(src, end);
    InlineDeep(src, end + 1);
    InlineAbove(src, end + 1, j, level);
    hide Level, SkipInline;
    forall y | i <= y <= j ensures Level(src, y) >= level {
      if y > end { assert end + 1 <= y; }
    }
  }

  lemma CommaLeave(src: string, i: nat, end: nat, j: nat, level: int)
    requires i <= end < |src| && src[end] == ',' && Level(src, end) == level && Above(src, i, end, level)
    requires SkipInline(src, end + 1) <= j <= |src| && AllLeave(src, SkipInline(src, end + 1), j)
    ensures AllLeave(src, i, j)
  {
    InlinePlain(src, end + 1);
    hide Level, SkipInline;
    var next := SkipInline(src, end + 1);
    forall c | 0 <= c <= j && ExitIn(src, i, c) ensures Leaves(src, c, j) {
      if c <= end {
        assert Ends(src[end]) && Level(src, end) <= Level(src, c);
      } else {
        assert ExitIn(src, next, c);
      }
    }
  }

  // A name and its call.
  lemma SpanCall(src: string, e: Expr, i: nat, open: nat, j: nat, done: bool)
    requires i < open < j <= |src| && src[open] == '(' && Plain(src, i, open) && ExprSize(e) <= 5
    requires forall y :: i <= y < open ==> src[y] != '\n'
    requires Region(src, open + 1, j, done, Level(src, open + 1))
    ensures Span(src, e, i, j, {i, open})
  {
    CallDeep(src, i, open, j, done);
    hide Level, Deep, Above, Leaves, Blocked;
    assert |{i, open}| == 2;
    forall c | 0 <= c <= |src| && ExitIn(src, i, c) ensures open + 1 <= c && ExitIn(src, open + 1, c) {
    }
  }

  lemma CallDeep(src: string, i: nat, open: nat, j: nat, done: bool)
    requires i < open < j <= |src| && src[open] == '(' && Plain(src, i, open)
    requires Region(src, open + 1, j, done, Level(src, open + 1))
    ensures Deep(src, i, j)
  {
    hide AllLeave;
    PlainDeep(src, i, open);
    LevelNext(src, open);
    if done { LevelNext(src, j - 1); }
    hide Level;
    var inner := if done then j - 1 else j;
    forall y | i <= y < j ensures Level(src, y) >= Level(src, i) && (Ends(src[y]) ==> Level(src, y) > Level(src, i)) {
      if y > open { assert open + 1 <= y <= inner; }
    }
  }

  // Spaces before the arguments.
  lemma RegionPre(src: string, i: nat, j: nat, done: bool, level: int)
    requires i <= |src| && SkipInline(src, i) <= j <= |src| && Level(src, i) == level
    requires Region(src, SkipInline(src, i), j, done, level)
    ensures Region(src, i, j, done, level)
  {
    var k := SkipInline(src, i);
    InlineAbove(src, i, if done then j - 1 else j, level);
    InlinePlain(src, i);
    hide Level, Above, SkipInline;
    forall c | 0 <= c <= j && ExitIn(src, i, c) ensures Leaves(src, c, j) {
      assert ExitIn(src, k, c);
    }
  }

  lemma NoArguments(src: string, i: nat)
    requires i < |src| && src[i] == ')'
    ensures Region(src, i, i + 1, true, Level(src, i))
  {
    AboveHere(src, i, Level(src, i));
    DoneLeave(src, i, i, Level(src, i));
  }

  lemma TailRegion(src: string, i: nat)
    requires NoQuote(src) && i <= |src| && !NativeTail(src, i).NoCall?
    ensures
      var open, call := SkipInline(src, i), NativeTail(src, i);
      && open < call.resume <= |src| && src[open] == '('
      && Region(src, open + 1, call.resume, call.Call?, Level(src, open + 1))
  {
    hide Level, Region, NativeArgs;
    var open := SkipInline(src, i);
    var first := SkipInline(src, open + 1);
    InlineDeep(src, open + 1);
    if At(src, first) == ')' { NoArguments(src, first); } else { ArgsRegion(src, first, []); }
    hide SkipInline;
    RegionPre(src, open + 1, NativeTail(src, i).resume, NativeTail(src, i).Call?, Level(src, open + 1));
  }

  lemma NamePlain(src: string, i: nat)
    requires i <= |src|
    ensures Plain(src, i, IdentEnd(src, i)) && Plain(src, i, SkipInline(src, IdentEnd(src, i)))
    ensures forall y :: i <= y < SkipInline(src, IdentEnd(src, i)) ==> src[y] != '\n'
  {
    IdentPlain(src, i);
    InlinePlain(src, IdentEnd(src, i));
    hide IdentEnd, SkipInline;
  }

  lemma NameSpan(src: string, i: nat) returns (ops: set<nat>)
    requires NoQuote(src) && i <= |src|
    ensures Span(src, ParseName(src, i).0, i, ParseName(src, i).1, ops)
  {
    hide Level, Span, NativeTail, NativeId, IdentEnd, Ident, SkipInline, Region, Plain;
    NamePlain(src, i);
    var (e, j) := ParseName(src, i);
    ops := {};
    if !IsIdentStart(At(src, i)) {
      NothingPlain(src, i);
      SpanLeaf(src, e, i, j);
    } else {
      var end := IdentEnd(src, i);
      if NativeId(Ident(src, i)) < 0 || NativeTail(src, end).NoCall? {
        SpanLeaf(src, e, i, j);
      } else {
        var call := NativeTail(src, end);
        TailRegion(src, end);
        ops := {i, SkipInline(src, end)};
        SpanCall(src, e, i, SkipInline(src, end), j, call.Call?);
      }
    }
  }

  lemma NothingPlain(src: string, i: nat)
    requires i <= |src|
    ensures Plain(src, i, i)
  {
  }

  // ----- the grammar -----

  lemma {:induction false} FactorSpan(src: string, i: nat) returns (ops: set<nat>)
    requires NoQuote(src) && i <= |src|
    ensures Span(src, ParseFactor(src, i).0, i, ParseFactor(src, i).1, ops)
    decreases |src| - i, 0
  {
    hide Level, Span, SkipInline, ParseExpr, ParseName, Digits;
    var k := SkipInline(src, i);
    var (e, j) := ParseFactor(src, i);
    NotQuote(src, k);
    if At(src, k) == '(' {
      ops := ExprSpan(src, k + 1);
      SpanParens(src, e, k, ParseExpr(src, k + 1).1, ops);
    } else if IsDigit(At(src, k)) {
      ops := {};
      DigitsPlain(src, k, 0);
      SpanLeaf(src, e, k, j);
    } else {
      ops := NameSpan(src, k);
    }
    SpanPre(src, e, i, j, ops);
  }

  lemma {:induction false} TermSpan(src: string, i: nat) returns (ops: set<nat>)
    requires NoQuote(src) && i <= |src|
    ensures Span(src, ParseTerm(src, i).0, i, ParseTerm(src, i).1, ops)
    decreases |src| - i, 2
  {
    hide Level, Span, ParseFactor, TermRest;
    ops := FactorSpan(src, i);
    var (f, j) := ParseFactor(src, i);
    ops := TermRestSpan(src, i, j, f, ops);
  }

  lemma OneOperator(src: string, k: nat)
    requires k < |src| && Closing(src[k]) && src[k] != ')' && src[k] != '\0'
    ensures OperatorAt(src, k, k + 1)
  {
  }

  lemma {:induction false} TermRestSpan(src: string, t: nat, i: nat, acc: Expr, before: set<nat>)
    returns (ops: set<nat>)
    requires NoQuote(src) && t <= i <= |src| && Span(src, acc, t, i, before)
    ensures Span(src, TermRest(src, i, acc).0, t, TermRest(src, i, acc).1, ops)
    decreases |src| - i, 1
  {
    hide Level, Span, SkipInline, ParseFactor, OperatorAt;
    var k := SkipInline(src, i);
    if At(src, k) == '*' || At(src, k) == '/' {
      var op := if At(src, k) == '*' then Mul else Div;
      var (f, j) := ParseFactor(src, k + 1);
      var right := FactorSpan(src, k + 1);
      OneOperator(src, k);
      SpanBin(src, op, acc, f, t, i, k + 1, j, before, right);
      ops := TermRestSpan(src, t, j, Bin(op, acc, f), before + {k} + right);
    } else {
      ops := before;
      SpanPad(src, acc, t, i, ops);
    }
  }

  lemma {:induction false} ExprSpan(src: string, i: nat) returns (ops: set<nat>)
    requires NoQuote(src) && i <= |src|
    ensures Span(src, ParseExpr(src, i).0, i, ParseExpr(src, i).1, ops)
    decreases |src| - i, 4
  {
    hide Level, Span, ParseTerm, ExprRest;
    ops := TermSpan(src, i);
    var (e, j) := ParseTerm(src, i);
    ops := ExprRestSpan(src, i, j, e, ops);
  }

  lemma {:induction false} ExprRestSpan(src: string, t: nat, i: nat, acc: Expr, before: set<nat>)
    returns (ops: set<nat>)
    requires NoQuote(src) && t <= i <= |src| && Span(src, acc, t, i, before)
    ensures Span(src, ExprRest(src, i, acc).0, t, ExprRest(src, i, acc).1, ops)
    decreases |src| - i, 3
  {
    hide Level, Span, SkipInline, ParseTerm, OperatorAt;
    var k := SkipInline(src, i);
    if At(src, k) == '+' || At(src, k) == '-' {
      var op := if At(src, k) == '+' then Add else Sub;
      var (e, j) := ParseTerm(src, k + 1);
      var right := TermSpan(src, k + 1);
      OneOperator(src, k);
      SpanBin(src, op, acc, e, t, i, k + 1, j, before, right);
      ops := ExprRestSpan(src, t, j, Bin(op, acc, e), before + {k} + right);
    } else {
      ops := before;
      SpanPad(src, acc, t, i, ops);
    }
  }

  lemma CompareOpAt(src: string, k: nat)
    requires CompareOp(src, k).Some?
    ensures k + CompareOp(src, k).value.1 <= |src| && OperatorAt(src, k, k + CompareOp(src, k).value.1)
  {
  }

  lemma CompareSpan(src: string, i: nat) returns (ops: set<nat>)
    requires NoQuote(src) && i <= |src|
    ensures Span(src, ParseCompare(src, i).0, i, ParseCompare(src, i).1, ops)
  {
    hide Level, Span, ParseExpr, CompareRest;
    ops := ExprSpan(src, i);
    var (e, j) := ParseExpr(src, i);
    ops := CompareRestSpan(src, i, j, e, ops);
  }

  lemma {:induction false} CompareRestSpan(src: string, t: nat, i: nat, acc: Expr, before: set<nat>)
    returns (ops: set<nat>)
    requires NoQuote(src) && t <= i <= |src| && Span(src, acc, t, i, before)
    ensures Span(src, CompareRest(src, i, acc).0, t, CompareRest(src, i, acc).1, ops)
    decreases |src| - i
  {
    hide Level, Span, SkipInline, ParseExpr, OperatorAt, CompareOp;
    var k := SkipInline(src, i);
    match CompareOp(src, k) {
      case None =>
        ops := before;
        SpanPad(src, acc, t, i, ops);
      case Some((op, len)) =>
        var (e, j) := ParseExpr(src, k + len);
        var right := ExprSpan(src, k + len);
        CompareOpAt(src, k);
        SpanBin(src, op, acc, e, t, i, k + len, j, before, right);
        ops := CompareRestSpan(src, t, j, Bin(op, acc, e), before + {k} + right);
    }
  }

  // ----- places used already, and where reading goes on -----

  predicate Junk(src: string, i: nat)
    requires i <= |src|
  {
    Closing(At(src, SkipSpace(src, i)))
  }

  ghost predicate LineFenced(src: string, i: nat, q: nat)
    requires q <= |src|
  {
    forall c :: i < c <= q && c < |src| && src[c] == '\n' ==> Fenced(src, c, q)
  }

  // What is read from i on uses no place of these; nor what is read from a later line.
  ghost predicate Walled(src: string, used: set<nat>, i: nat)
    requires i <= |src|
  {
    forall q :: q in used ==> q < |src| && (q < i || (Fenced(src, i, q) && LineFenced(src, i, q)))
  }

  // The same, or no statement starts at i and its line is skipped.
  ghost predicate Avoids(src: string, used: set<nat>, i: nat)
    requires i <= |src|
  {
    forall q :: q in used ==>
      q < |src| && (q < i || ((Fenced(src, i, q) || Junk(src, i)) && LineFenced(src, i, q)))
  }

  lemma AvoidsWalled(src: string, used: set<nat>, i: nat)
    requires i <= |src| && Avoids(src, used, i) && !Junk(src, i)
    ensures Walled(src, used, i) && Avoids(src, used, i)
  {
    hide Fenced, LineFenced, Junk;
  }

  lemma WalledAvoids(src: string, used: set<nat>, i: nat)
    requires i <= |src| && Walled(src, used, i)
    ensures Avoids(src, used, i)
  {
    hide Fenced, LineFenced, Junk;
  }

  lemma WalledMove(src: string, used: set<nat>, i: nat, j: nat)
    requires i <= j <= |src| && Walled(src, used, i) && Deep(src, i, j)
    ensures Walled(src, used, j)
  {
    hide Level;
    forall q | q in used ensures q < |src| && (q < j || (Fenced(src, j, q) && LineFenced(src, j, q))) {
      if q >= j { FencedMove(src, i, j, q); }
    }
  }

  lemma FencedMove(src: string, i: nat, j: nat, q: nat)
    requires i <= j <= q <= |src| && Fenced(src, i, q) && Deep(src, i, j)
    ensures Fenced(src, j, q)
  {
    hide Level;
    var y :| i <= y < q && Ends(src[y]) && Level(src, y) <= Level(src, i);
    assert j <= y;
  }

  lemma {:induction false} SpacePlain(src: string, i: nat)
    requires i <= |src|
    ensures Plain(src, i, SkipSpace(src, i))
    decreases |src| - i
  {
    if IsSpace(At(src, i)) { SpacePlain(src, i + 1); }
  }

  lemma SpaceTwice(src: string, i: nat)
    requires i <= |src|
    ensures SkipSpace(src, SkipSpace(src, i)) == SkipSpace(src, i)
  {
  }

  lemma SpaceMove(src: string, used: set<nat>, i: nat)
    requires i <= |src| && Avoids(src, used, i)
    ensures Avoids(src, used, SkipSpace(src, i))
  {
    hide Level, Fenced, SkipSpace, Closing;
    var k := SkipSpace(src, i);
    SpaceTwice(src, i);
    if !Junk(src, i) {
      AvoidsWalled(src, used, i);
      SpacePlain(src, i);
      PlainDeep(src, i, k);
      WalledMove(src, used, i, k);
    }
  }

  // Skipping to the end of the line.
  lemma LineMove(src: string, used: set<nat>, i: nat, j: nat)
    requires i <= j <= |src| && Avoids(src, used, i) && (At(src, j) == '\n' || At(src, j) == '\0')
    ensures Avoids(src, used, j)
  {
    hide Level, Fenced;
  }

  // What an expression has used, from a line end or a parenthesis in it or behind it.
  lemma ExprAvoids(src: string, e: Expr, t: nat, j: nat, ops: set<nat>, c: nat)
    requires t <= j <= |src| && t <= c <= |src| && Span(src, e, t, j, ops)
    requires ExitIn(src, t, c) || At(src, c) == '\0'
    ensures Avoids(src, ops, c)
  {
    hide Level, Fenced, Deep, AllLeave;
    forall q | q in ops
      ensures q < |src| && (q < c || ((Fenced(src, c, q) || Junk(src, c)) && LineFenced(src, c, q)))
    {
      assert Unread(src, t, q);
      if q >= c {
        if ExitIn(src, t, c) && Shut(src, c) { ShutIsJunk(src, c); }
        forall d | c < d <= q && d < |src| && src[d] == '\n' ensures Fenced(src, d, q) {
          assert ExitIn(src, t, d);
        }
      }
    }
  }

  lemma ShutIsJunk(src: string, c: nat)
    requires c <= |src| && Shut(src, c)
    ensures Junk(src, c)
  {
    InlineThenSpace(src, c);
  }

  lemma {:induction false} InlineThenSpace(src: string, c: nat)
    requires c <= |src| && !IsSpace(At(src, SkipInline(src, c)))
    ensures SkipSpace(src, c) == SkipInline(src, c)
    decreases |src| - c
  {
    if IsInlineSpace(At(src, c)) { InlineThenSpace(src, c + 1); }
  }

  lemma NotFenced(src: string, t: nat, j: nat, q: nat)
    requires t <= q <= j <= |src| && Deep(src, t, j)
    ensures !Fenced(src, t, q)
  {
    hide Level;
  }

  lemma ExprApart(src: string, used: set<nat>, e: Expr, t: nat, j: nat, ops: set<nat>)
    requires t <= j <= |src| && Walled(src, used, t) && Span(src, e, t, j, ops)
    ensures ops !! used
  {
    hide Level, Fenced, Deep, AllLeave, Unread, LineFenced;
    forall q | q in ops ensures q !in used { NotFenced(src, t, j, q); }
  }

  lemma WalledApart(src: string, used: set<nat>, k: nat, n: nat)
    requires k <= n <= |src| && Walled(src, used, k) && Plain(src, k, n)
    ensures forall q :: k <= q <= n ==> q !in used
  {
    PlainDeep(src, k, n);
    hide Level, Fenced, Deep, LineFenced;
    forall q | k <= q <= n ensures q !in used { NotFenced(src, k, n, q); }
  }

  // n instructions have been read from i, going on at j, at the cost of new places.
  ghost predicate Uses(src: string, i: nat, j: nat, n: int, used: set<nat>, more: set<nat>)
    requires i <= j <= |src|
  {
    && (forall q :: q in more ==> i <= q < |src|) && more !! used
    && n <= 2 * |more| && Avoids(src, used + more, j)
  }

  lemma UsesChain(src: string, i: nat, j: nat, k: nat, n: int, m: int, used: set<nat>, a: set<nat>, b: set<nat>)
    requires i <= j <= k <= |src| && Uses(src, i, j, n, used, a) && Uses(src, j, k, m, used + a, b)
    ensures Uses(src, i, k, n + m, used, a + b)
  {
    hide Avoids;
    assert |a + b| == |a| + |b|;
    assert used + a + b == used + (a + b);
  }

  lemma UsesNothing(src: string, i: nat, j: nat, used: set<nat>)
    requires i <= j <= |src| && Avoids(src, used, j)
    ensures Uses(src, i, j, 0, used, {})
  {
    assert used + {} == used;
  }

  lemma AvoidsBoth(src: string, a: set<nat>, b: set<nat>, i: nat)
    requires i <= |src| && Avoids(src, a, i) && Avoids(src, b, i)
    ensures Avoids(src, a + b, i)
  {
    hide Fenced, LineFenced, Junk;
  }

  lemma AvoidsPassed(src: string, a: set<nat>, i: nat)
    requires i <= |src| && forall q :: q in a ==> q < i
    ensures Avoids(src, a, i)
  {
  }

  // Two kinds of new places, both behind or out of reach.
  lemma Gather(src: string, k: nat, m: nat, n: int, used: set<nat>, a: set<nat>, b: set<nat>)
    requires k <= m <= |src| && Avoids(src, used, m) && Avoids(src, a, m) && Avoids(src, b, m)
    requires a !! used && b !! used && a !! b && n <= 2 * (|a| + |b|)
    requires (forall q :: q in a ==> k <= q < |src|) && forall q :: q in b ==> k <= q < |src|
    ensures Uses(src, k, m, n, used, a + b)
  {
    hide Avoids;
    AvoidsBoth(src, used, a, m);
    AvoidsBoth(src, used + a, b, m);
    assert used + a + b == used + (a + b);
    assert |a + b| == |a| + |b|;
  }

  // ----- statements -----

  // One instruction more than an expression that starts at t, or no more than two of its own.
  lemma LineUses(src: string, k: nat, t: nat, j: nat, e: Expr, ops: set<nat>, used: set<nat>)
    returns (more: set<nat>)
    requires k < t <= |src| && Plain(src, k, t) && src[k] != '\n' && t <= j <= |src| && Span(src, e, t, j, ops)
    requires Avoids(src, used, k) && !Junk(src, k)
    ensures Uses(src, k, LineEnd(src, t), ExprSize(e) + 1, used, more)
  {
    hide Level, Deep, Span, Junk, LineFenced, Fenced, Plain, Avoids, Walled, Uses, ExitIn;
    var c := LineEnd(src, t);
    AvoidsWalled(src, used, k);
    PlainDeep(src, k, t);
    WalledMove(src, used, k, t);
    ExprApart(src, used, e, t, j, ops);
    WalledApart(src, used, k, t);
    LineMove(src, used, k, c);
    LineEndExit(src, t);
    ExprAvoids(src, e, t, j, ops, c);
    AvoidsPassed(src, {k}, c);
    SpanSize(src, e, t, j, ops);
    Gather(src, k, c, ExprSize(e) + 1, used, {k}, ops);
    more := {k} + ops;
  }

  lemma LineEndExit(src: string, t: nat)
    requires t <= |src|
    ensures ExitIn(src, t, LineEnd(src, t)) || At(src, LineEnd(src, t)) == '\0'
  {
  }

  lemma SpanSize(src: string, e: Expr, t: nat, j: nat, ops: set<nat>)
    requires t <= j <= |src| && Span(src, e, t, j, ops)
    ensures ExprSize(e) <= 2 * |ops| + 1 && Deep(src, t, j) && forall q :: q in ops ==> t <= q < j
  {
  }

  // A statement without an expression.
  lemma BareUses(src: string, k: nat, t: nat, n: int, used: set<nat>) returns (more: set<nat>)
    requires k < |src| && k <= t <= |src| && src[k] != '\n' && src[k] != '\0' && n <= 2
    requires Avoids(src, used, k) && !Junk(src, k)
    ensures Uses(src, k, LineEnd(src, t), n, used, more)
  {
    hide Level, Junk, LineFenced, Fenced;
    var c := LineEnd(src, t);
    AvoidsWalled(src, used, k);
    NothingPlain(src, k);
    WalledApart(src, used, k, k);
    LineMove(src, used, k, c);
    PassesLine(src, k, t);
    AvoidsPassed(src, {k}, c);
    AvoidsBoth(src, used, {k}, c);
    more := {k};
  }

  lemma PassesLine(src: string, k: nat, t: nat)
    requires k < |src| && k <= t <= |src| && src[k] != '\n' && src[k] != '\0'
    ensures k < LineEnd(src, t)
  {
  }

  lemma SkippedLine(src: string, k: nat, t: nat, used: set<nat>) returns (more: set<nat>)
    requires k <= t <= |src| && Avoids(src, used, k)
    ensures Uses(src, k, LineEnd(src, t), 0, used, more)
  {
    hide Avoids;
    LineMove(src, used, k, LineEnd(src, t));
    UsesNothing(src, k, LineEnd(src, t), used);
    more := {};
  }

  predicate IsWord(word: string) { word != "" && forall c :: c in word ==> IsIdentStart(c) }

  lemma WordsAre()
    ensures IsWord("print") && IsWord("int") && IsWord("read") && IsWord("if") && IsWord("while") && IsWord("else")
  {
  }

  // A keyword is plain text, and starts a statement.
  lemma KeywordPlain(src: string, k: nat, word: string)
    requires k <= |src| && MatchKeyword(src, k, word) && IsWord(word)
    ensures k + |word| <= |src| && Plain(src, k, k + |word|)
    ensures k < |src| && IsIdentStart(src[k]) && src[k] != '\n' && src[k] != '\0' && !Junk(src, k)
  {
    hide Junk;
    forall y | k <= y < k + |word| ensures src[y] != '(' && !Ends(src[y]) {
      assert src[y] == src[k..][y - k] == word[y - k] && word[y - k] in word;
    }
    assert src[k] == src[k..][0] == word[0] && word[0] in word;
    LetterNotJunk(src, k);
  }

  lemma PlainOn(src: string, i: nat, j: nat, k: nat)
    requires i <= j <= k <= |src| && Plain(src, i, j) && Plain(src, j, k)
    ensures Plain(src, i, k)
  {
  }

  lemma LetterNotJunk(src: string, k: nat)
    requires k <= |src| && IsIdentStart(At(src, k))
    ensures !Junk(src, k) && k < |src| && src[k] != '\n' && src[k] != '\0' && SkipSpace(src, k) == k
  {
  }

  lemma PrintUses(src: string, k: nat, used: set<nat>) returns (more: set<nat>)
    requires NoQuote(src) && k <= |src| && MatchKeyword(src, k, "print") && Avoids(src, used, k)
    ensures k + 5 <= |src|
    ensures
      var (s, j) := ParsePrint(src, k + 5);
      Uses(src, k, j, StmtSize(s), used, more)
  {
    hide Level, Span, Avoids, Uses, Junk, Plain, MatchKeyword, IsWord, ParseCompare, SkipInline, LineEnd;
    WordsAre();
    KeywordPlain(src, k, "print");
    var t := SkipInline(src, k + 5);
    InlinePlain(src, k + 5);
    PlainOn(src, k, k + 5, t);
    var ops := CompareSpan(src, t);
    var (e, j) := ParseCompare(src, t);
    more := LineUses(src, k, t, j, e, ops, used);
  }

  // A value assigned, its expression read from i.
  lemma RightUses(src: string, k: nat, x: string, i: nat, used: set<nat>) returns (more: set<nat>)
    requires NoQuote(src) && k < i <= |src| && Plain(src, k, i) && src[k] != '\n'
    requires Avoids(src, used, k) && !Junk(src, k)
    ensures
      var (s, j) := ParseRight(src, x, i);
      Uses(src, k, j, StmtSize(s), used, more)
  {
    hide Level, Span, Avoids, Uses, Junk, Plain, ParseCompare, SkipInline, LineEnd;
    var t := SkipInline(src, i);
    var ops := CompareSpan(src, t);
    var (e, j) := ParseCompare(src, t);
    SpanPre(src, e, i, j, ops);
    more := LineUses(src, k, i, j, e, ops, used);
  }

  // A name and the place after it, past spaces.
  lemma AfterName(src: string, k: nat, i: nat)
    requires k <= i <= |src| && Plain(src, k, i)
    ensures
      var n := SkipInline(src, IdentEnd(src, i));
      Plain(src, k, n) && (n < |src| && src[n] == '=' ==> Plain(src, k, n + 1))
  {
    NamePlain(src, i);
    hide IdentEnd, SkipInline;
    PlainOn(src, k, i, SkipInline(src, IdentEnd(src, i)));
  }

  lemma IntUses(src: string, k: nat, used: set<nat>) returns (more: set<nat>)
    requires NoQuote(src) && k <= |src| && MatchKeyword(src, k, "int") && Avoids(src, used, k)
    ensures k + 3 <= |src|
    ensures
      var (s, j) := ParseInt(src, k + 3);
      Uses(src, k, j, StmtSize(s), used, more)
  {
    hide Level, Avoids, Uses, Junk, Plain, MatchKeyword, IsWord, ParseRight, SkipInline, LineEnd, IdentEnd, Ident;
    WordsAre();
    KeywordPlain(src, k, "int");
    var j := SkipInline(src, k + 3);
    InlinePlain(src, k + 3);
    PlainOn(src, k, k + 3, j);
    if IsIdentStart(At(src, j)) {
      var n := SkipInline(src, IdentEnd(src, j));
      AfterName(src, k, j);
      if At(src, n) == '=' {
        more := RightUses(src, k, Ident(src, j), n + 1, used);
      } else {
        more := BareUses(src, k, n, 2, used);
      }
    } else {
      more := BareUses(src, k, j, 0, used);
    }
  }

  lemma ReadUses(src: string, k: nat, used: set<nat>) returns (more: set<nat>)
    requires k <= |src| && MatchKeyword(src, k, "read") && Avoids(src, used, k)
    ensures k + 4 <= |src|
    ensures
      var (s, j) := ParseRead(src, k + 4);
      Uses(src, k, j, StmtSize(s), used, more)
  {
    hide Level, Avoids, Uses, Junk, Plain, MatchKeyword, IsWord, SkipInline, LineEnd, IdentEnd, Ident;
    WordsAre();
    KeywordPlain(src, k, "read");
    var j := SkipInline(src, k + 4);
    if IsIdentStart(At(src, j)) {
      more := BareUses(src, k, IdentEnd(src, j), 1, used);
    } else {
      more := BareUses(src, k, j, 0, used);
    }
  }

  lemma AssignUses(src: string, k: nat, used: set<nat>) returns (more: set<nat>)
    requires NoQuote(src) && k <= |src| && IsIdentStart(At(src, k)) && Avoids(src, used, k)
    ensures
      var (s, j) := ParseAssign(src, k);
      Uses(src, k, j, StmtSize(s), used, more)
  {
    LetterNotJunk(src, k);
    NothingPlain(src, k);
    AfterName(src, k, k);
    hide Level, Avoids, Uses, Junk, Plain, ParseRight, SkipInline, LineEnd, IdentEnd, Ident;
    var n := SkipInline(src, IdentEnd(src, k));
    if At(src, n) == '=' {
      more := RightUses(src, k, Ident(src, k), n + 1, used);
    } else {
      more := BareUses(src, k, n, 0, used);
    }
  }

  lemma KeywordFirst(src: string, k: nat, word: string)
    requires k <= |src| && word != "" && At(src, k) != word[0]
    ensures !MatchKeyword(src, k, word)
  {
    if k < |src| { assert src[k..][0] == src[k]; }
  }

  lemma SimpleUses(src: string, k: nat, loops: nat, used: set<nat>) returns (more: set<nat>)
    requires NoQuote(src) && k <= |src| && !AtEnd(At(src, k)) && !IsSpace(At(src, k)) && Avoids(src, used, k)
    ensures
      var (s, j) := ParseSimple(src, k, loops);
      Uses(src, k, j, StmtSize(s), used, more)
  {
    hide Level, Avoids, Uses, Junk, MatchKeyword, ParsePrint, ParseInt, ParseRead, ParseAssign, LineEnd;
    if !IsIdentStart(At(src, k)) {
      NoKeyword(src, k);
      more := SkippedLine(src, k, k, used);
    } else {
      LetterNotJunk(src, k);
      if MatchKeyword(src, k, "print") {
        more := PrintUses(src, k, used);
      } else if MatchKeyword(src, k, "break") || MatchKeyword(src, k, "continue") {
        more := BareUses(src, k, k, StmtSize(ParseSimple(src, k, loops).0), used);
      } else if MatchKeyword(src, k, "int") {
        more := IntUses(src, k, used);
      } else if MatchKeyword(src, k, "read") {
        more := ReadUses(src, k, used);
      } else {
        more := AssignUses(src, k, used);
      }
    }
  }

  lemma NoKeyword(src: string, k: nat)
    requires k <= |src| && !IsIdentStart(At(src, k))
    ensures !MatchKeyword(src, k, "print") && !MatchKeyword(src, k, "break") && !MatchKeyword(src, k, "continue")
    ensures !MatchKeyword(src, k, "int") && !MatchKeyword(src, k, "read") && !MatchKeyword(src, k, "if")
    ensures !MatchKeyword(src, k, "while") && !MatchKeyword(src, k, "else")
  {
    hide MatchKeyword;
    KeywordFirst(src, k, "print");
    KeywordFirst(src, k, "break");
    KeywordFirst(src, k, "continue");
    KeywordFirst(src, k, "int");
    KeywordFirst(src, k, "read");
    KeywordFirst(src, k, "if");
    KeywordFirst(src, k, "while");
    KeywordFirst(src, k, "else");
  }

  // ----- conditionals and loops -----

  lemma {:induction false} FindDeep(src: string, i: nat)
    requires i <= |src|
    ensures forall y :: i <= y <= Find(src, i, ')') ==> Level(src, y) >= Level(src, i)
    decreases |src| - i
  {
    hide Level;
    if At(src, i) != '\0' && At(src, i) != ')' {
      LevelNext(src, i);
      FindDeep(src, i + 1);
      var r := Find(src, i + 1, ')');
      forall y | i <= y <= r ensures Level(src, y) >= Level(src, i) {
        if y > i { assert i + 1 <= y; }
      }
    }
  }

  // From a keyword over its opening parenthesis and a condition in it to after the next closing one.
  lemma HeadDeep(src: string, k: nat, open: nat, i: nat)
    requires k <= open < i <= |src| && Plain(src, k, open) && src[open] == '(' && Deep(src, open + 1, i)
    ensures Deep(src, k, PastParen(src, i))
  {
    PlainDeep(src, k, open);
    LevelNext(src, open);
    FindDeep(src, i);
    var r, m := Find(src, i, ')'), PastParen(src, i);
    if m == r + 1 { LevelNext(src, r); }
    hide Level, Find;
    forall y | k <= y < m ensures Level(src, y) >= Level(src, k) && (Ends(src[y]) ==> Level(src, y) > Level(src, k)) {
      if open < y < i { assert open + 1 <= y < i; }
    }
  }

  lemma PastParenExit(src: string, t: nat)
    requires t <= |src|
    ensures ExitIn(src, t, PastParen(src, t)) || At(src, PastParen(src, t)) == '\0'
  {
  }

  // The places of a conditional's or a loop's head, and where its block is looked for.
  lemma HeadUses(src: string, k: nat, open: nat, i: nat, e: Expr, j: nat, ops: set<nat>, used: set<nat>)
    returns (more: set<nat>)
    requires k + 2 <= open && open + 1 <= i <= |src| && Plain(src, k, open) && src[open] == '(' && src[k] != '\n'
    requires Deep(src, open + 1, i) && open + 1 <= j <= |src| && Span(src, e, open + 1, j, ops)
    requires i == open + 1 || i == j
    requires Avoids(src, used, k) && !Junk(src, k)
    ensures PastParen(src, i) > k && Uses(src, k, PastParen(src, i), ExprSize(e) + 2, used, more)
  {
    hide Level, Deep, Span, Junk, LineFenced, Fenced, Plain, Avoids, Walled, Uses, ExitIn, PastParen;
    var t, m := open + 1, PastParen(src, i);
    AvoidsWalled(src, used, k);
    OpenDeep(src, k, open);
    WalledMove(src, used, k, t);
    ExprApart(src, used, e, t, j, ops);
    WalledApart(src, used, k, open);
    HeadDeep(src, k, open, i);
    WalledMove(src, used, k, m);
    WalledAvoids(src, used, m);
    SpanSize(src, e, t, j, ops);
    if i == t {
      PastParenExit(src, t);
      ExprAvoids(src, e, t, j, ops, m);
    } else {
      AvoidsPassed(src, ops, m);
    }
    AvoidsPassed(src, {k, k + 1}, m);
    Gather(src, k, m, ExprSize(e) + 2, used, {k, k + 1}, ops);
    more := {k, k + 1} + ops;
  }

  lemma OpenDeep(src: string, k: nat, open: nat)
    requires k <= open < |src| && Plain(src, k, open) && src[open] == '('
    ensures Deep(src, k, open + 1)
  {
    PlainDeep(src, k, open);
    LevelNext(src, open);
    hide Level;
  }

  lemma DeepHere(src: string, i: nat)
    requires i <= |src|
    ensures Deep(src, i, i)
  {
  }

  // One plain character passed.
  lemma CharMove(src: string, used: set<nat>, k: nat, n: nat)
    requires k <= n <= |src| && Avoids(src, used, k) && !Junk(src, k) && Plain(src, k, n)
    ensures Avoids(src, used, n)
  {
    hide Level, Deep, Plain, Junk, Avoids, Walled;
    AvoidsWalled(src, used, k);
    PlainDeep(src, k, n);
    WalledMove(src, used, k, n);
    WalledAvoids(src, used, n);
  }

  lemma BraceNotJunk(src: string, k: nat)
    requires k < |src| && (src[k] == '{' || src[k] == '}')
    ensures !Junk(src, k) && Plain(src, k, k + 1)
  {
  }

  lemma {:induction false} IfUses(src: string, k: nat, loops: nat, used: set<nat>) returns (more: set<nat>)
    requires NoQuote(src) && k <= |src| && MatchKeyword(src, k, "if") && Avoids(src, used, k)
    ensures k + 2 <= |src|
    ensures
      var (s, j) := ParseIf(src, k + 2, loops);
      Uses(src, k, j, StmtSize(s), used, more)
    decreases |src| - k, 1
  {
    hide Level, Deep, Span, Avoids, Uses, Junk, Plain, MatchKeyword, IsWord, ParseCompare, ParseBlock, ParseElse,
      SkipInline, PastParen, LineEnd, StmtSize;
    WordsAre();
    KeywordPlain(src, k, "if");
    var open := SkipInline(src, k + 2);
    InlinePlain(src, k + 2);
    PlainOn(src, k, k + 2, open);
    NoCode();
    if At(src, open) != '(' {
      more := SkippedLine(src, k, open, used);
    } else {
      var t := open + 1;
      var ops := CompareSpan(src, t);
      var (e, end) := ParseCompare(src, t);
      DeepHere(src, t);
      var head := HeadUses(src, k, open, t, e, end, ops, used);
      var m := PastParen(src, t);
      UsesAvoids(src, k, m, ExprSize(e) + 2, used, head);
      var (b, j) := ParseBlock(src, m, loops);
      var block := BlockUses(src, m, loops, used + head);
      UsesChain(src, k, m, j, ExprSize(e) + 2, StmtSize(b), used, head, block);
      UsesAvoids(src, k, j, ExprSize(e) + 2 + StmtSize(b), used, head + block);
      var rest := ElseUses(src, j, loops, e, b, used + (head + block));
      var (s, n) := ParseElse(src, j, loops, e, b);
      UsesChain(src, k, j, n, ExprSize(e) + 2 + StmtSize(b), StmtSize(s) - (ExprSize(e) + 2 + StmtSize(b)), used,
                head + block, rest);
      more := head + block + rest;
    }
  }

  lemma UsesAvoids(src: string, i: nat, j: nat, n: int, used: set<nat>, more: set<nat>)
    requires i <= j <= |src| && Uses(src, i, j, n, used, more)
    ensures Avoids(src, used + more, j)
  {
  }

  lemma {:induction false} ElseUses(src: string, i: nat, loops: nat, cond: Expr, thn: Stmt, used: set<nat>)
    returns (more: set<nat>)
    requires NoQuote(src) && i <= |src| && Avoids(src, used, i)
    ensures
      var (s, j) := ParseElse(src, i, loops, cond, thn);
      Uses(src, i, j, StmtSize(s) - (ExprSize(cond) + 2 + StmtSize(thn)), used, more)
    decreases |src| - i, 5
  {
    hide Level, Avoids, Uses, Junk, Plain, MatchKeyword, IsWord, ParseBlock, SkipSpace,
      StmtSize;
    var k := SkipSpace(src, i);
    SpaceMove(src, used, i);
    BranchSizes(cond, thn, ParseElse(src, i, loops, cond, thn).0);
    if MatchKeyword(src, k, "else") {
      WordsAre();
      KeywordPlain(src, k, "else");
      CharMove(src, used, k, k + 4);
      UsesNothing(src, i, k + 4, used);
      NothingMore(used);
      var block := BlockUses(src, k + 4, loops, used);
      var (f, j) := ParseBlock(src, k + 4, loops);
      UsesChain(src, i, k + 4, j, 0, StmtSize(f), used, {}, block);
      more := {} + block;
    } else {
      UsesNothing(src, i, k, used);
      UsesLess(src, i, k, 0, -1, used, {});
      more := {};
    }
  }

  lemma BranchSizes(c: Expr, b: Stmt, s: Stmt)
    ensures s == If(c, b) ==> StmtSize(s) == ExprSize(c) + 1 + StmtSize(b)
    ensures s.IfElse? && s.cond == c && s.thn == b ==>
      StmtSize(s) == ExprSize(c) + 1 + StmtSize(b) + 1 + StmtSize(s.els)
  {
  }

  lemma NothingMore(used: set<nat>)
    ensures used + {} == used
  {
  }

  lemma UsesLess(src: string, i: nat, j: nat, n: int, m: int, used: set<nat>, more: set<nat>)
    requires i <= j <= |src| && Uses(src, i, j, n, used, more) && m <= n
    ensures Uses(src, i, j, m, used, more)
  {
    hide Avoids;
  }

  lemma {:induction false} WhileUses(src: string, k: nat, loops: nat, used: set<nat>) returns (more: set<nat>)
    requires NoQuote(src) && k <= |src| && MatchKeyword(src, k, "while") && Avoids(src, used, k)
    ensures k + 5 <= |src|
    ensures
      var (s, j) := ParseWhile(src, k + 5, loops);
      Uses(src, k, j, StmtSize(s), used, more)
    decreases |src| - k, 1
  {
    hide Level, Deep, Span, Avoids, Uses, Junk, Plain, MatchKeyword, IsWord, ParseCompare, ParseBlock, SkipInline,
      PastParen, LineEnd;
    WordsAre();
    KeywordPlain(src, k, "while");
    var open := SkipInline(src, k + 5);
    InlinePlain(src, k + 5);
    PlainOn(src, k, k + 5, open);
    if At(src, open) != '(' {
      more := SkippedLine(src, k, open, used);
    } else if loops >= MAX_LOOP_DEPTH {
      more := SkippedLine(src, k, open + 1, used);
    } else {
      var t := open + 1;
      var ops := CompareSpan(src, t);
      var (e, end) := ParseCompare(src, t);
      SpanSize(src, e, t, end, ops);
      var head := HeadUses(src, k, open, end, e, end, ops, used);
      var m := PastParen(src, end);
      UsesAvoids(src, k, m, ExprSize(e) + 2, used, head);
      var (b, j) := ParseBlock(src, m, loops + 1);
      var block := BlockUses(src, m, loops + 1, used + head);
      UsesChain(src, k, m, j, ExprSize(e) + 2, StmtSize(b), used, head, block);
      more := head + block;
    }
  }

  lemma {:induction false} BlockUses(src: string, i: nat, loops: nat, used: set<nat>) returns (more: set<nat>)
    requires NoQuote(src) && i <= |src| && Avoids(src, used, i)
    ensures
      var (s, j) := ParseBlock(src, i, loops);
      Uses(src, i, j, StmtSize(s), used, more)
    decreases |src| - i, 4
  {
    hide Level, Avoids, Uses, Junk, Plain, ParseStmts, SkipSpace, StmtSize;
    var k := SkipSpace(src, i);
    SpaceMove(src, used, i);
    NoCode();
    NothingMore(used);
    if At(src, k) == '{' {
      BraceNotJunk(src, k);
      CharMove(src, used, k, k + 1);
      UsesNothing(src, i, k + 1, used);
      var inner := StmtsUses(src, k + 1, loops, Skip, used);
      var (s, j) := ParseStmts(src, k + 1, loops, Skip);
      UsesChain(src, i, k + 1, j, 0, StmtSize(s), used, {}, inner);
      more := {} + inner;
      if At(src, j) == '}' {
        BraceNotJunk(src, j);
        UsesAvoids(src, i, j, StmtSize(s), used, more);
        CharMove(src, used + more, j, j + 1);
        UsesNothing(src, j, j + 1, used + more);
        UsesChain(src, i, j, j + 1, StmtSize(s), 0, used, more, {});
        more := more + {};
      }
    } else {
      UsesNothing(src, i, k, used);
      more := {};
    }
  }

  lemma {:induction false} StmtUses(src: string, i: nat, loops: nat, used: set<nat>) returns (more: set<nat>)
    requires NoQuote(src) && i <= |src| && Avoids(src, used, i)
    ensures
      var (s, j) := ParseStmt(src, i, loops);
      Uses(src, i, j, StmtSize(s), used, more)
    decreases |src| - SkipSpace(src, i), 2
  {
    hide Level, Avoids, Uses, MatchKeyword, ParseIf, ParseWhile, ParseSimple, SkipSpace;
    var k := SkipSpace(src, i);
    SpaceMove(src, used, i);
    UsesNothing(src, i, k, used);
    NothingMore(used);
    var (s, j) := ParseStmt(src, i, loops);
    more := {};
    if !AtEnd(At(src, k)) {
      if MatchKeyword(src, k, "if") {
        KeywordFits(src, k, "if");
        more := IfUses(src, k, loops, used);
      } else if MatchKeyword(src, k, "while") {
        KeywordFits(src, k, "while");
        more := WhileUses(src, k, loops, used);
      } else {
        more := SimpleUses(src, k, loops, used);
      }
      UsesChain(src, i, k, j, 0, StmtSize(s), used, {}, more);
      more := {} + more;
    }
  }

  lemma UsesSpace(src: string, i: nat, j: nat, n: int, used: set<nat>, more: set<nat>)
    requires i <= j <= |src| && Uses(src, i, j, n, used, more)
    ensures Uses(src, i, SkipSpace(src, j), n, used, more)
  {
    hide Avoids, SkipSpace;
    SpaceMove(src, used + more, j);
  }

  lemma {:induction false} StmtsUses(src: string, i: nat, loops: nat, acc: Stmt, used: set<nat>)
    returns (more: set<nat>)
    requires NoQuote(src) && i <= |src| && Avoids(src, used, i)
    ensures
      var (s, j) := ParseStmts(src, i, loops, acc);
      Uses(src, i, j, StmtSize(s) - StmtSize(acc), used, more)
    decreases |src| - i, 3
  {
    hide Level, Avoids, Uses, ParseStmt, SkipSpace, StmtSize;
    if AtEnd(At(src, i)) {
      UsesNothing(src, i, i, used);
      more := {};
    } else {
      var (s, j) := ParseStmt(src, i, loops);
      more := StmtUses(src, i, loops, used);
      var n := SkipSpace(src, j);
      UsesSpace(src, i, j, StmtSize(s), used, more);
      UsesAvoids(src, i, n, StmtSize(s), used, more);
      SeqTables(acc, s, NO_TABLES);
      var rest := StmtsUses(src, n, loops, Seq(acc, s), used + more);
      var (last, end) := ParseStmts(src, n, loops, Seq(acc, s));
      UsesChain(src, i, n, end, StmtSize(s), StmtSize(last) - StmtSize(Seq(acc, s)), used, more, rest);
      more := more + rest;
    }
  }

  // ----- whole texts -----

  function Places(n: nat): (s: set<nat>)
    ensures |s| == n && forall q: nat :: q in s <==> q < n
  {
    if n == 0 then {} else Places(n - 1) + {n - 1}
  }

  // A text without a quote compiles to at most two instructions a character.
  lemma NoQuoteBound(src: string)
    requires NoQuote(src)
    ensures StmtSize(Parse(src)) <= 2 * |src|
  {
    hide ParseStmts, Level;
    AvoidsPassed(src, {}, 0);
    NoCode();
    var more := StmtsUses(src, 0, 0, Skip, {});
    assert more <= Places(|src|);
    SubsetPlaces(more, |src|);
  }

  lemma SubsetPlaces(a: set<nat>, n: nat)
    requires a <= Places(n)
    ensures |a| <= n
  {
    assert Places(n) == a + (Places(n) - a);
  }

  // A text without quotes that fits the editor's buffer, with each of the jump keywords at most 32 times, fits
  // the compiler's arrays.
  lemma FileFits(src: string)
    requires NoQuote(src) && |src| <= 511 && FewJumps(src)
    ensures CodeFits(Parse(src))
  {
    hide Parse, NoQuote, FewJumps;
    NoQuoteBound(src);
    FewJumpsFit(src);
  }
}
