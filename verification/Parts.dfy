// The parts of a statement's code, and where they stand in a program.
module Parts {
  import opened Words
  import opened Wrappers
  import opened Operators
  import opened Tree
  import opened Machine
  import opened Code
  import opened ExprCorrect

  lemma InBounds(code: seq<u16>, at: nat, c: seq<u16>)
    requires CodeAt(code, at, c)
    ensures at + |c| <= |code|
  {
  }

  lemma JumpAhead(n: nat)
    requires n < 2048
    ensures S12(n) == n
  {
  }

  lemma BackDecodes(n: nat)
    requires n <= 2048
    ensures S12(BackArg(n)) + n == 0
  {
  }

  lemma BranchSize(op: BinaryOp, edge: bool, skip: nat)
    ensures |BranchCode(op, edge, skip)| == 2
  {
  }

  lemma ElseSize(s: Stmt, env: Env)
    ensures |ElseCode(OptCode(Some(s), env))| == 1 + |StmtCode(s, env)|
  {
  }

  lemma ElseIs(s: Stmt, env: Env)
    ensures ElseCode(OptCode(Some(s), env)) == [Word(JUMP, |StmtCode(s, env)| + 1)] + StmtCode(s, env)
  {
    hide StmtCode, Word;
  }

  lemma WhileIs(op: BinaryOp, l: Expr, r: Expr, loop: Stmt, env: Env)
    ensures var test, b := ExprCode(l) + ExprCode(r), StmtCode(loop, env);
            StmtCode(FoldedWhile(op, l, r, loop), env) ==
            test + (BranchCode(op, false, 2 + |b| + 1) + (b + [Word(JUMP, BackArg(|test| + |b| + 2))]))
  {
    hide ExprCode, BranchCode, BackArg, Word;
  }

  lemma ElseLength(els: Option<Stmt>, env: Env)
    ensures |ElseCode(OptCode(els, env))| == if els.Some? then 1 + |StmtCode(els.value, env)| else 0
  {
    if els.Some? { ElseSize(els.value, env); }
  }

  lemma IfSize(edge: bool, site: nat, op: BinaryOp, l: Expr, r: Expr, thn: Stmt, els: Option<Stmt>, env: Env)
    ensures |StmtCode(FoldedIfWhen(edge, site, op, l, r, thn, els), env)| ==
            |ExprCode(l) + ExprCode(r)| + 2 + |StmtCode(thn, env)| +
            if els.Some? then 1 + |StmtCode(els.value, env)| else 0
  {
    hide ExprCode;
  }

  lemma WhileSize(op: BinaryOp, l: Expr, r: Expr, loop: Stmt, env: Env)
    ensures |StmtCode(FoldedWhile(op, l, r, loop), env)| ==
            |ExprCode(l) + ExprCode(r)| + 2 + |StmtCode(loop, env)| + 1
  {
    hide ExprCode;
  }

  lemma IfIs(edge: bool, site: nat, op: BinaryOp, l: Expr, r: Expr, thn: Stmt, els: Option<Stmt>, env: Env)
    ensures StmtCode(FoldedIfWhen(edge, site, op, l, r, thn, els), env) ==
            ExprCode(l) + ExprCode(r)
            + (BranchCode(op, edge, 2 + |StmtCode(thn, env)| + if els.Some? then 1 else 0)
               + (StmtCode(thn, env) + ElseCode(OptCode(els, env))))
  {
    hide ExprCode, BranchCode, ElseCode;
  }

  /** A conditional: its test up to the branch at a, the branch, and both blocks. */
  lemma IfParts(edge: bool, site: nat, op: BinaryOp, l: Expr, r: Expr, thn: Stmt, els: Option<Stmt>, env: Env,
                code: seq<u16>, at: nat, a: nat, n: nat)
    requires CodeAt(code, at, StmtCode(FoldedIfWhen(edge, site, op, l, r, thn, els), env))
    requires a == at + |ExprCode(l) + ExprCode(r)| && n == |StmtCode(thn, env)|
    ensures CodeAt(code, at, ExprCode(l) + ExprCode(r))
    ensures CodeAt(code, a, BranchCode(op, edge, 2 + n + if els.Some? then 1 else 0))
    ensures CodeAt(code, a + 2, StmtCode(thn, env)) && CodeAt(code, a + 2 + n, ElseCode(OptCode(els, env)))
    ensures at + |StmtCode(FoldedIfWhen(edge, site, op, l, r, thn, els), env)| <= |code|
    ensures els.Some? ==> CodeAt(code, a + 2 + n, [Word(JUMP, |StmtCode(els.value, env)| + 1)])
                          && CodeAt(code, a + 2 + n + 1, StmtCode(els.value, env))
  {
    hide CodeAt, ExprCode, StmtCode, BranchCode, ElseCode;
    var t, branch := StmtCode(thn, env), BranchCode(op, edge, 2 + n + if els.Some? then 1 else 0);
    var f := ElseCode(OptCode(els, env));
    IfIs(edge, site, op, l, r, thn, els, env);
    BranchSize(op, edge, 2 + n + if els.Some? then 1 else 0);
    InBounds(code, at, StmtCode(FoldedIfWhen(edge, site, op, l, r, thn, els), env));
    SplitAt(code, at, ExprCode(l) + ExprCode(r), branch + (t + f));
    SplitAt(code, a, branch, t + f);
    SplitAt(code, a + 2, t, f);
    if els.Some? { ElseParts(els.value, env, code, a + 2 + n); }
  }

  lemma ElseParts(els: Stmt, env: Env, code: seq<u16>, at: nat)
    requires CodeAt(code, at, ElseCode(OptCode(Some(els), env)))
    ensures CodeAt(code, at, [Word(JUMP, |StmtCode(els, env)| + 1)]) && CodeAt(code, at + 1, StmtCode(els, env))
  {
    hide CodeAt, Word, StmtCode;
    SplitAt(code, at, [Word(JUMP, |StmtCode(els, env)| + 1)], StmtCode(els, env));
  }

  /** A loop: its test up to the branch at a, the branch, its body and the jump back. */
  lemma WhileParts(op: BinaryOp, l: Expr, r: Expr, loop: Stmt, env: Env, code: seq<u16>, at: nat, a: nat, n: nat)
    requires CodeAt(code, at, StmtCode(FoldedWhile(op, l, r, loop), env))
    requires a == at + |ExprCode(l) + ExprCode(r)| && n == |StmtCode(loop, env)|
    ensures CodeAt(code, at, ExprCode(l) + ExprCode(r)) && CodeAt(code, a, BranchCode(op, false, 2 + n + 1))
    ensures CodeAt(code, a + 2, StmtCode(loop, env))
    ensures CodeAt(code, a + 2 + n, [Word(JUMP, BackArg(a - at + n + 2))])
    ensures a + 2 + n + 1 <= |code|
  {
    hide CodeAt, ExprCode, Word, BranchCode, BackArg;
    var b, branch := StmtCode(loop, env), BranchCode(op, false, 2 + n + 1);
    var tail := [Word(JUMP, BackArg(a - at + n + 2))];
    BranchSize(op, false, 2 + n + 1);
    InBounds(code, at, StmtCode(FoldedWhile(op, l, r, loop), env));
    SplitAt(code, at, ExprCode(l) + ExprCode(r), branch + (b + tail));
    SplitAt(code, a, branch, b + tail);
    SplitAt(code, a + 2, b, tail);
  }
}
