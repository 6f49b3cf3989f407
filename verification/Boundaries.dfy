// Instruction boundaries: where a walk over the words of a program, one instruction at a
// time, can stop. Live code is only ever entered at boundaries.
module Boundaries {
  import opened Words
  import opened Wrappers
  import opened Operators
  import opened Tree
  import opened Machine
  import opened Code
  import opened Segments
  import opened Bytecode
  import opened Heights
  import opened StmtSteps
  import opened Parts
  import opened Walks

  predicate Boundary(c: seq<u16>, a: int)
    decreases |c|
  {
    a == 0 || (c != [] && a >= HeadSize(c) && Boundary(c[HeadSize(c)..], a - HeadSize(c)))
  }

  lemma BoundaryNext(c: seq<u16>, a: nat)
    requires c != [] && a > 0
    ensures Boundary(c, a) <==> a >= HeadSize(c) && Boundary(c[HeadSize(c)..], a - HeadSize(c))
  {
    hide HeadSize;
  }

  lemma BoundaryStart(c: seq<u16>)
    ensures Boundary(c, 0)
  {
  }

  /** The first instruction of a concatenation. */
  lemma HeadWhole(x: seq<u16>, y: seq<u16>)
    requires x != [] && Whole(x)
    ensures HeadSize(x) == HeadSize(x + y) == WordSize(x[0]) && Whole(x[HeadSize(x)..])
    ensures (x + y)[HeadSize(x)..] == x[HeadSize(x)..] + y
  {
    hide WordSize;
    WholeNext(x);
    TailConcat(x, y, HeadSize(x));
  }

  lemma WholeNext(x: seq<u16>)
    requires x != [] && Whole(x)
    ensures HeadSize(x) == WordSize(x[0]) && Whole(x[HeadSize(x)..])
  {
    hide WordSize;
  }

  lemma TailConcat(x: seq<u16>, y: seq<u16>, n: nat)
    requires n <= |x|
    ensures (x + y)[n..] == x[n..] + y
  {
  }

  /** Boundaries of a concatenation. */
  lemma {:induction false} BoundaryConcat(x: seq<u16>, y: seq<u16>, o: nat)
    requires Whole(x)
    ensures Boundary(y, o) ==> Boundary(x + y, |x| + o)
    ensures o <= |x| && Boundary(x, o) ==> Boundary(x + y, o)
    decreases |x|
  {
    hide Boundary, Whole, HeadSize;
    if x == [] {
      assert x + y == y;
      BoundaryStart(x + y);
    } else {
      var n := HeadSize(x);
      HeadWhole(x, y);
      BoundaryConcat(x[n..], y, o);
      BoundaryNext(x + y, |x| + o);
      if o == 0 {
        BoundaryStart(x + y);
      } else {
        BoundaryNext(x, o);
        BoundaryNext(x + y, o);
        if o >= n { BoundaryConcat(x[n..], y, o - n); }
      }
    }
  }

  lemma {:induction false} BoundaryEnd(x: seq<u16>)
    requires Whole(x)
    ensures Boundary(x, |x|)
    decreases |x|
  {
    if x != [] {
      BoundaryEnd(x[WordSize(x[0])..]);
    }
  }

  /** The operand words of an instruction are not boundaries. */
  lemma {:induction false} OperandsAreNot(c: seq<u16>, a: nat, k: nat)
    requires Boundary(c, a) && a < |c| && 0 < k < WordSize(c[a]) && a + k < |c|
    ensures !Boundary(c, a + k)
    decreases |c|
  {
    if a > 0 {
      var n := HeadSize(c);
      assert c[n..][a - n] == c[a];
      OperandsAreNot(c[n..], a - n, k);
    }
  }

  // ---------------------------------------------------------------- code of trees

  /** a and b are made of whole instructions; so is a + b, with these boundaries. */
  lemma JoinLeft(a: seq<u16>, b: seq<u16>, o: nat)
    requires Whole(a) && o <= |a| && Boundary(a, o)
    ensures Boundary(a + b, o)
  {
    BoundaryConcat(a, b, o);
  }

  lemma JoinRight(a: seq<u16>, b: seq<u16>, o: nat)
    requires Whole(a) && Boundary(b, o)
    ensures Boundary(a + b, |a| + o)
  {
    BoundaryConcat(a, b, o);
  }

  lemma ExprWhole(e: Expr)
    requires EmittableExpr(e)
    ensures Whole(ExprCode(e)) && Boundary(ExprCode(e), |ExprCode(e)|)
  {
    ExprInert(e, StopToRet);
    BoundaryEnd(ExprCode(e));
  }

  lemma {:induction false} ExprBoundary(e: Expr, o: nat)
    requires EmittableExpr(e) && ExprHeight(e, o).Some?
    ensures o <= |ExprCode(e)| && Boundary(ExprCode(e), o)
    decreases ExprSize(e), 1
  {
    hide Boundary, Whole, Word;
    ExprWhole(e);
    match e
    case Imm(_) => BoundaryStart(ExprCode(e));
    case Load(_) => BoundaryStart(ExprCode(e));
    case ArrayRead(base, size, index) =>
      ExprWhole(index);
      if o <= |ExprCode(index)| {
        ExprBoundary(index, o);
        JoinLeft(ExprCode(index), [Word(LOAD_INDIRECT, base), U16(size)], o);
      }
    case Unary(op, x) =>
      ExprWhole(x);
      if o <= |ExprCode(x)| {
        ExprBoundary(x, o);
        JoinLeft(ExprCode(x), [Word(UNARY_ARITHMETIC, op.Code())], o);
      }
    case Binary(op, l, r) =>
      if o <= |ExprCode(l) + ExprCode(r)| {
        PairBoundary(l, r, o);
        JoinLeft(ExprCode(l) + ExprCode(r), [Word(BINARY_ARITHMETIC, op.Code())], o);
      }
  }

  lemma {:induction false} PairBoundary(l: Expr, r: Expr, o: nat)
    requires EmittableExpr(l) && EmittableExpr(r) && PairHeight(l, r, o).Some?
    ensures o <= |ExprCode(l) + ExprCode(r)| && Boundary(ExprCode(l) + ExprCode(r), o)
    ensures Whole(ExprCode(l) + ExprCode(r))
    decreases ExprSize(l) + ExprSize(r), 0
  {
    hide Boundary, Whole;
    PairWhole(l, r);
    ExprWhole(l);
    if o < |ExprCode(l)| {
      ExprBoundary(l, o);
      JoinLeft(ExprCode(l), ExprCode(r), o);
    } else {
      ExprBoundary(r, o - |ExprCode(l)|);
      JoinRight(ExprCode(l), ExprCode(r), o - |ExprCode(l)|);
    }
  }

  lemma PairWhole(l: Expr, r: Expr)
    requires EmittableExpr(l) && EmittableExpr(r)
    ensures Whole(ExprCode(l) + ExprCode(r))
  {
    PairInert(l, r, StopToRet);
  }

  lemma TargetBoundary(t: Target, o: nat)
    requires EmittableTarget(t) && TargetHeight(t, o).Some?
    ensures o <= |TargetCode(t)| && Boundary(TargetCode(t), o)
  {
    hide Boundary, Whole, Word;
    TargetInert(t, StopToRet);
    InertWhole(TargetCode(t));
    match t
    case Store(_) => BoundaryStart(TargetCode(t));
    case ArrayWrite(base, size, index) =>
      if o <= |ExprCode(index)| {
        ExprWhole(index);
        ExprBoundary(index, o);
        JoinLeft(ExprCode(index), [Word(STORE_INDIRECT, base), U16(size)], o);
      }
  }

  lemma InertWhole(c: seq<u16>)
    requires Inert(c, StopToRet)
    ensures Whole(c) && Boundary(c, |c|)
  {
    BoundaryEnd(c);
  }

  /** Before linking, or with the address of every subroutine. */
  predicate Resolved(env: Env, subs: nat) {
    env.calls == [] || (|env.calls| == subs && Addressable(Relocate(env.calls)))
  }

  lemma {:induction false} RewrittenWhole(c: seq<u16>, rw: Rewrite)
    requires Whole(c) && Addressable(rw)
    ensures Whole(Rewritten(c, rw))
    decreases |c|
  {
    hide Word, RewriteWord;
    if c != [] {
      var n := WordSize(c[0]);
      RewriteKeepsSize(rw, c[0]);
      RewrittenWhole(c[n..], rw);
      assert Rewritten(c, rw)[n..] == Rewritten(c[n..], rw);
    }
  }

  lemma BlockWhole(ss: seq<Stmt>, env: Env, subs: nat)
    requires EmittableBlock(ss, subs) && subs <= 4096 && |BlockCode(ss, env)| <= 2048 && Resolved(env, subs)
    ensures Whole(BlockCode(ss, env)) && Boundary(BlockCode(ss, env), |BlockCode(ss, env)|)
  {
    hide BlockCode, EmittableBlock, Addressable;
    if env.calls == [] {
      NotRelocated();
      BlockWalked(ss, env, subs, StopToRet);
    } else {
      var env0 := Env([], env.inSub);
      BlockSameLength(ss, env, env0);
      BlockWalked(ss, env0, subs, Relocate(env.calls));
      RewrittenWhole(BlockCode(ss, env0), Relocate(env.calls));
    }
    BoundaryEnd(BlockCode(ss, env));
  }

  lemma NotRelocated()
    ensures Addressable(StopToRet)
  {
  }

  lemma StmtWhole(s: Stmt, env: Env, subs: nat)
    requires Emittable(s, subs) && subs <= 4096 && |StmtCode(s, env)| <= 2048 && Resolved(env, subs)
    ensures Whole(StmtCode(s, env)) && Boundary(StmtCode(s, env), |StmtCode(s, env)|)
  {
    hide StmtCode, Emittable, Resolved;
    Alone(s, env, subs);
    BlockWhole([s], env, subs);
  }

  lemma Alone(s: Stmt, env: Env, subs: nat)
    ensures BlockCode([s], env) == StmtCode(s, env) && (EmittableBlock([s], subs) <==> Emittable(s, subs))
  {
    hide StmtCode;
    assert [s][1..] == [];
    assert BlockCode([s], env) == StmtCode(s, env) + [];
  }

  lemma {:induction false} StmtBoundary(s: Stmt, env: Env, subs: nat, o: nat)
    requires Emittable(s, subs) && subs <= 4096 && |StmtCode(s, env)| <= 2048 && Resolved(env, subs)
    requires StmtHeight(s, env, o).Some?
    ensures o <= |StmtCode(s, env)| && Boundary(StmtCode(s, env), o)
    decreases s, 1
  {
    hide Boundary, Whole, Word, ExprCode, TargetCode, EmittableExpr, EmittableTarget, Resolved, BranchCode;
    StmtWhole(s, env, subs);
    BoundaryStart(StmtCode(s, env));
    match s
    case Block(body) => BlockBoundary(body, env, subs, o);
    case Assign(t, e) =>
      ExprWhole(e);
      if o <= |ExprCode(e)| {
        ExprBoundary(e, o);
        JoinLeft(ExprCode(e), TargetCode(t), o);
      } else {
        TargetBoundary(t, o - |ExprCode(e)|);
        JoinRight(ExprCode(e), TargetCode(t), o - |ExprCode(e)|);
      }
    case FoldedIfWhen(edge, site, op, l, r, thn, els) => IfBoundary(s, edge, op, l, r, thn, els, env, subs, o);
    case FoldedWhile(op, l, r, loop) => WhileBoundary(s, op, l, r, loop, env, subs, o);
    case Emit(pre, event, base, size) =>
      BlockWhole(pre, env, subs);
      if o <= |BlockCode(pre, env)| {
        BlockBoundary(pre, env, subs, o);
        JoinLeft(BlockCode(pre, env), [Word(EMIT, event), U16(base), U16(size)], o);
      }
    case CallSub(_) =>
    case Return =>
  }

  lemma {:induction false} BlockBoundary(ss: seq<Stmt>, env: Env, subs: nat, o: nat)
    requires EmittableBlock(ss, subs) && subs <= 4096 && |BlockCode(ss, env)| <= 2048 && Resolved(env, subs)
    requires BlockHeight(ss, env, o).Some?
    ensures o <= |BlockCode(ss, env)| && Boundary(BlockCode(ss, env), o)
    decreases ss, 0
  {
    hide Boundary, Whole, Emittable, StmtCode, StmtHeight, Resolved;
    BoundaryStart(BlockCode(ss, env));
    if ss != [] {
      var c, rest := StmtCode(ss[0], env), BlockCode(ss[1..], env);
      StmtWhole(ss[0], env, subs);
      if o < |c| {
        StmtBoundary(ss[0], env, subs, o);
        JoinLeft(c, rest, o);
      } else {
        BlockBoundary(ss[1..], env, subs, o - |c|);
        JoinRight(c, rest, o - |c|);
      }
    }
  }

  lemma BranchWhole(op: BinaryOp, edge: bool, skip: nat)
    ensures Whole(BranchCode(op, edge, skip)) && |BranchCode(op, edge, skip)| == 2
  {
    BranchInert(op, edge, skip, StopToRet);
    InertWhole(BranchCode(op, edge, skip));
  }

  lemma JumpWhole(arg: nat)
    requires arg < 4096
    ensures Whole([Word(JUMP, arg)])
  {
    JumpInert(arg, StopToRet);
    InertWhole([Word(JUMP, arg)]);
  }

  lemma {:induction false} IfBoundary(s: Stmt, edge: bool, op: BinaryOp, l: Expr, r: Expr, thn: Stmt, els: Option<Stmt>,
                                      env: Env, subs: nat, o: nat)
    requires s.FoldedIfWhen? && s.edge == edge && s.op == op && s.left == l && s.right == r && s.thn == thn
    requires s.els == els
    requires Emittable(s, subs) && subs <= 4096 && |StmtCode(s, env)| <= 2048 && Resolved(env, subs)
    requires StmtHeight(s, env, o).Some? && Boundary(StmtCode(s, env), |StmtCode(s, env)|)
    ensures o <= |StmtCode(s, env)| && Boundary(StmtCode(s, env), o)
    decreases s, 0
  {
    hide Boundary, Whole, Word, ExprCode, EmittableExpr, Resolved, BranchCode, StmtCode, StmtHeight, PairHeight,
         ElseCode;
    var site := s.site;
    IfIs(edge, site, op, l, r, thn, els, env);
    IfSize(edge, site, op, l, r, thn, els, env);
    IfHeights(edge, site, op, l, r, thn, els, env, o);
    var test, t, f := ExprCode(l) + ExprCode(r), StmtCode(thn, env), ElseCode(OptCode(els, env));
    var skip := 2 + |t| + if els.Some? then 1 else 0;
    var branch, a := BranchCode(op, edge, skip), |test|;
    PairWhole(l, r);
    BranchWhole(op, edge, skip);
    StmtWhole(thn, env, subs);
    if o <= a {
      PairBoundary(l, r, o);
      JoinLeft(test, branch + (t + f), o);
    } else if o == |test + (branch + (t + f))| {
    } else if o <= a + 2 + |t| {
      ElseLength(els, env);
      StmtBoundary(thn, env, subs, o - a - 2);
      JoinLeft(t, f, o - a - 2);
      JoinRight(branch, t + f, o - a - 2);
      JoinRight(test, branch + (t + f), o - a);
    } else {
      var e := StmtCode(els.value, env);
      var k := o - a - 2 - |t| - 1;
      StmtBoundary(els.value, env, subs, k);
      ElseIs(els.value, env);
      JumpWhole(|e| + 1);
      JoinRight([Word(JUMP, |e| + 1)], e, k);
      JoinRight(t, f, k + 1);
      JoinRight(branch, t + f, |t| + k + 1);
      JoinRight(test, branch + (t + f), o - a);
    }
  }

  lemma {:induction false} WhileBoundary(s: Stmt, op: BinaryOp, l: Expr, r: Expr, loop: Stmt, env: Env, subs: nat,
                                         o: nat)
    requires s == FoldedWhile(op, l, r, loop)
    requires Emittable(s, subs) && subs <= 4096 && |StmtCode(s, env)| <= 2048 && Resolved(env, subs)
    requires StmtHeight(s, env, o).Some? && Boundary(StmtCode(s, env), |StmtCode(s, env)|)
    ensures o <= |StmtCode(s, env)| && Boundary(StmtCode(s, env), o)
    decreases s, 0
  {
    hide Boundary, Whole, Word, ExprCode, EmittableExpr, Resolved, BranchCode, BackArg;
    var test, b := ExprCode(l) + ExprCode(r), StmtCode(loop, env);
    var branch, tail, a := BranchCode(op, false, 2 + |b| + 1), [Word(JUMP, BackArg(|test| + |b| + 2))], |test|;
    PairWhole(l, r);
    BranchWhole(op, false, 2 + |b| + 1);
    StmtWhole(loop, env, subs);
    if o <= a {
      PairBoundary(l, r, o);
      JoinLeft(test, branch + (b + tail), o);
    } else if o == |test + (branch + (b + tail))| {
    } else {
      StmtBoundary(loop, env, subs, o - a - 2);
      JoinLeft(b, tail, o - a - 2);
      JoinRight(branch, b + tail, o - a - 2);
      JoinRight(test, branch + (b + tail), o - a);
    }
  }
}
