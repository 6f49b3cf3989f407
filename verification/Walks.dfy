// Walking over the code of a tree stays in step with its instructions: the rewriting
// passes and the call scan see exactly what the tree says.
module Walks {
  import opened Words
  import opened Wrappers
  import opened Operators
  import opened Tree
  import opened Machine
  import opened Code
  import opened Segments
  import opened Bytecode
  import opened StmtSteps

  // ---------------------------------------------------------------- concatenation

  lemma WholeConcat(a: seq<u16>, b: seq<u16>)
    requires Whole(a)
    ensures Whole(a + b) == Whole(b)
    ensures Called(a + b) == Called(a) + Called(b)
  {
    WholeBoth(a, b);
    CalledBoth(a, b);
  }

  lemma {:induction false} WholeBoth(a: seq<u16>, b: seq<u16>)
    requires Whole(a)
    ensures Whole(a + b) == Whole(b)
    decreases |a|
  {
    if a == [] {
      assert a + b == b;
    } else {
      var n := WordSize(a[0]);
      assert (a + b)[n..] == a[n..] + b;
      WholeBoth(a[n..], b);
    }
  }

  lemma {:induction false} CalledBoth(a: seq<u16>, b: seq<u16>)
    requires Whole(a)
    ensures Called(a + b) == Called(a) + Called(b)
    decreases |a|
  {
    if a == [] {
      assert a + b == b;
    } else {
      var n := WordSize(a[0]);
      assert n == HeadSize(a) == HeadSize(a + b);
      assert (a + b)[n..] == a[n..] + b;
      CalledBoth(a[n..], b);
    }
  }

  lemma SliceLeft(a: seq<u16>, b: seq<u16>, i: nat, j: nat)
    requires i <= j <= |a|
    ensures (a + b)[i..j] == a[i..j]
  {
    var left, right := (a + b)[i..j], a[i..j];
    forall k | 0 <= k < j - i
      ensures left[k] == right[k]
    {
      assert left[k] == (a + b)[i + k] == a[i + k];
    }
  }

  lemma {:induction false} RewrittenConcat(a: seq<u16>, b: seq<u16>, rw: Rewrite)
    requires Whole(a)
    ensures Rewritten(a + b, rw) == Rewritten(a, rw) + Rewritten(b, rw)
    decreases |a|
  {
    hide RewriteWord;
    if a == [] {
      assert a + b == b;
    } else {
      var n := HeadSize(a);
      assert n == WordSize(a[0]) == HeadSize(a + b);
      assert (a + b)[n..] == a[n..] + b;
      SliceLeft(a, b, 1, n);
      RewrittenConcat(a[n..], b, rw);
    }
  }

  /** One instruction. */
  lemma SingleWalk(c: seq<u16>, rw: Rewrite)
    requires c != [] && WordSize(c[0]) == |c|
    ensures Whole(c)
    ensures Called(c) == if c[0] / 4096 == SUB_CALL then {c[0] % 4096} else {}
    ensures Rewritten(c, rw) == [RewriteWord(rw, c[0])] + c[1..]
  {
    assert c[|c|..] == [];
  }

  /** c is made of whole instructions, none of them a call, a stop or a return. */
  ghost predicate Inert(c: seq<u16>, rw: Rewrite) {
    Whole(c) && Called(c) == {} && Rewritten(c, rw) == c
  }

  lemma InertConcat(a: seq<u16>, b: seq<u16>, rw: Rewrite)
    requires Inert(a, rw) && Inert(b, rw)
    ensures Inert(a + b, rw)
  {
    WholeConcat(a, b);
    RewrittenConcat(a, b, rw);
  }

  lemma InertSingle(c: seq<u16>, opcode: nat, arg: nat, rw: Rewrite)
    requires opcode < 16 && arg < 4096 && c != [] && c[0] == opcode * 4096 + arg && WordSize(c[0]) == |c|
    requires opcode != STOP && opcode != SUB_CALL
    ensures Inert(c, rw)
  {
    SingleWalk(c, rw);
  }

  lemma {:induction false} ExprInert(e: Expr, rw: Rewrite)
    requires EmittableExpr(e)
    ensures Inert(ExprCode(e), rw)
  {
    hide Inert;
    match e
    case Imm(v) =>
      if -2048 < v < 2048 {
        InertSingle(ExprCode(e), SMALL_IMMEDIATE, v % 4096, rw);
      } else {
        InertSingle(ExprCode(e), LARGE_IMMEDIATE, 0, rw);
      }
    case Load(a) => InertSingle(ExprCode(e), LOAD, a, rw);
    case ArrayRead(base, size, index) =>
      ExprInert(index, rw);
      InertSingle([Word(LOAD_INDIRECT, base), U16(size)], LOAD_INDIRECT, base, rw);
      InertConcat(ExprCode(index), [Word(LOAD_INDIRECT, base), U16(size)], rw);
    case Unary(op, operand) =>
      ExprInert(operand, rw);
      InertSingle([Word(UNARY_ARITHMETIC, op.Code())], UNARY_ARITHMETIC, op.Code(), rw);
      InertConcat(ExprCode(operand), [Word(UNARY_ARITHMETIC, op.Code())], rw);
    case Binary(op, l, r) =>
      ExprInert(l, rw);
      ExprInert(r, rw);
      InertConcat(ExprCode(l), ExprCode(r), rw);
      InertSingle([Word(BINARY_ARITHMETIC, op.Code())], BINARY_ARITHMETIC, op.Code(), rw);
      InertConcat(ExprCode(l) + ExprCode(r), [Word(BINARY_ARITHMETIC, op.Code())], rw);
  }

  lemma PairInert(l: Expr, r: Expr, rw: Rewrite)
    requires EmittableExpr(l) && EmittableExpr(r)
    ensures Inert(ExprCode(l) + ExprCode(r), rw)
  {
    ExprInert(l, rw);
    ExprInert(r, rw);
    InertConcat(ExprCode(l), ExprCode(r), rw);
  }

  lemma TargetInert(t: Target, rw: Rewrite)
    requires EmittableTarget(t)
    ensures Inert(TargetCode(t), rw)
  {
    match t
    case Store(a) => InertSingle(TargetCode(t), STORE, a, rw);
    case ArrayWrite(base, size, index) =>
      ExprInert(index, rw);
      InertSingle([Word(STORE_INDIRECT, base), U16(size)], STORE_INDIRECT, base, rw);
      InertConcat(ExprCode(index), [Word(STORE_INDIRECT, base), U16(size)], rw);
  }

  lemma BranchInert(op: BinaryOp, edge: bool, skip: nat, rw: Rewrite)
    ensures Inert(BranchCode(op, edge, skip), rw)
  {
    InertSingle(BranchCode(op, edge, skip), CONDITIONAL_BRANCH, BranchArg(op, edge), rw);
  }

  // ---------------------------------------------------------------- statements

  const UNLINKED: Env := Env([], false)

  /** The environment in which the rewritten code was emitted. */
  function After(env: Env, rw: Rewrite): Env {
    match rw
    case StopToRet => Env(env.calls, true)
    case Relocate(addr) => Env(addr, env.inSub)
  }

  /** Rewriting applies to unlinked code. */
  predicate Applies(env: Env, rw: Rewrite) {
    Addressable(rw) && env.calls == []
  }

  /** The walk over c meets exactly the calls in `callees`, and rewriting it gives c'. */
  ghost predicate Walked(c: seq<u16>, callees: set<nat>, rw: Rewrite, c': seq<u16>) {
    Whole(c) && Called(c) == callees && Rewritten(c, rw) == c'
  }

  lemma WalkedConcat(a: seq<u16>, x: set<nat>, a': seq<u16>, b: seq<u16>, y: set<nat>, b': seq<u16>, rw: Rewrite)
    requires Walked(a, x, rw, a') && Walked(b, y, rw, b')
    ensures Walked(a + b, x + y, rw, a' + b')
  {
    WholeConcat(a, b);
    RewrittenConcat(a, b, rw);
  }

  lemma InertWalked(c: seq<u16>, rw: Rewrite)
    requires Inert(c, rw)
    ensures Walked(c, {}, rw, c)
  {
  }

  lemma {:induction false} SameLength(s: Stmt, e: Env, e': Env)
    ensures |StmtCode(s, e)| == |StmtCode(s, e')|
    decreases s, 1
  {
    hide ExprCode, TargetCode, Word;
    match s
    case Block(body) => BlockSameLength(body, e, e');
    case Emit(pre, _, _, _) => BlockSameLength(pre, e, e');
    case FoldedIfWhen(_, _, _, _, _, thn, els) =>
      SameLength(thn, e, e');
      if els.Some? { SameLength(els.value, e, e'); }
    case FoldedWhile(_, _, _, loop) => SameLength(loop, e, e');
    case _ =>
  }

  lemma {:induction false} BlockSameLength(ss: seq<Stmt>, e: Env, e': Env)
    ensures |BlockCode(ss, e)| == |BlockCode(ss, e')|
    decreases ss, 0
  {
    if ss != [] {
      SameLength(ss[0], e, e');
      BlockSameLength(ss[1..], e, e');
    }
  }

  lemma {:induction false} StmtWalked(s: Stmt, env: Env, subs: nat, rw: Rewrite)
    requires Emittable(s, subs) && subs <= 4096 && |StmtCode(s, env)| <= 4096 && Applies(env, rw)
    requires rw.Relocate? ==> |rw.addr| == subs
    ensures Walked(StmtCode(s, env), Callees(s), rw, StmtCode(s, After(env, rw)))
    decreases s, 1
  {
    hide Walked, Inert, ExprCode, TargetCode, EmittableExpr, EmittableTarget, Word;
    match s
    case Block(body) => BlockWalked(body, env, subs, rw);
    case Assign(t, e) =>
      ExprInert(e, rw);
      TargetInert(t, rw);
      InertConcat(ExprCode(e), TargetCode(t), rw);
      InertWalked(ExprCode(e) + TargetCode(t), rw);
    case FoldedIfWhen(edge, site, op, l, r, thn, els) =>
      IfWalked(s, edge, op, l, r, thn, els, env, subs, rw);
    case FoldedWhile(op, l, r, loop) => WhileWalked(s, op, l, r, loop, env, subs, rw);
    case Emit(pre, event, base, size) =>
      BlockWalked(pre, env, subs, rw);
      EmitInert(event, base, size, rw);
      var tail := [Word(EMIT, event), U16(base), U16(size)];
      InertWalked(tail, rw);
      WalkedConcat(BlockCode(pre, env), BlockCallees(pre), BlockCode(pre, After(env, rw)), tail, {}, tail, rw);
      assert BlockCallees(pre) + {} == Callees(s);
    case CallSub(sub) => CallWalked(sub, env, subs, rw);
    case Return => ReturnWalked(env, rw);
  }

  lemma EmitInert(event: nat, base: nat, size: nat, rw: Rewrite)
    requires event < 4096
    ensures Inert([Word(EMIT, event), U16(base), U16(size)], rw)
  {
    InertSingle([Word(EMIT, event), U16(base), U16(size)], EMIT, event, rw);
  }

  lemma CallWalked(sub: nat, env: Env, subs: nat, rw: Rewrite)
    requires sub < subs <= 4096 && Applies(env, rw) && (rw.Relocate? ==> |rw.addr| == subs)
    ensures Walked(StmtCode(CallSub(sub), env), {sub}, rw, StmtCode(CallSub(sub), After(env, rw)))
  {
    SingleWalk(StmtCode(CallSub(sub), env), rw);
  }

  lemma ReturnWalked(env: Env, rw: Rewrite)
    requires Applies(env, rw)
    ensures Walked(StmtCode(Return, env), {}, rw, StmtCode(Return, After(env, rw)))
  {
    SingleWalk(StmtCode(Return, env), rw);
  }

  lemma {:induction false} BlockWalked(ss: seq<Stmt>, env: Env, subs: nat, rw: Rewrite)
    requires EmittableBlock(ss, subs) && subs <= 4096 && |BlockCode(ss, env)| <= 4096 && Applies(env, rw)
    requires rw.Relocate? ==> |rw.addr| == subs
    ensures Walked(BlockCode(ss, env), BlockCallees(ss), rw, BlockCode(ss, After(env, rw)))
    decreases ss, 0
  {
    if ss != [] {
      hide Walked;
      StmtWalked(ss[0], env, subs, rw);
      BlockWalked(ss[1..], env, subs, rw);
      WalkedConcat(StmtCode(ss[0], env), Callees(ss[0]), StmtCode(ss[0], After(env, rw)),
                   BlockCode(ss[1..], env), BlockCallees(ss[1..]), BlockCode(ss[1..], After(env, rw)), rw);
    }
  }

  lemma JumpInert(arg: nat, rw: Rewrite)
    requires arg < 4096
    ensures Inert([Word(JUMP, arg)], rw)
  {
    InertSingle([Word(JUMP, arg)], JUMP, arg, rw);
  }

  lemma {:induction false} IfWalked(s: Stmt, edge: bool, op: BinaryOp, l: Expr, r: Expr, thn: Stmt, els: Option<Stmt>,
                                    env: Env, subs: nat, rw: Rewrite)
    requires s.FoldedIfWhen? && s.edge == edge && s.op == op && s.left == l && s.right == r && s.thn == thn
    requires s.els == els
    requires Emittable(s, subs) && subs <= 4096 && |StmtCode(s, env)| <= 4096 && Applies(env, rw)
    requires rw.Relocate? ==> |rw.addr| == subs
    ensures Walked(StmtCode(s, env), Callees(s), rw, StmtCode(s, After(env, rw)))
    decreases s, 0
  {
    hide Walked, Inert, ExprCode, EmittableExpr, Word, BranchCode;
    var env' := After(env, rw);
    var test, t, t' := ExprCode(l) + ExprCode(r), StmtCode(thn, env), StmtCode(thn, env');
    var branch := BranchCode(op, edge, 2 + |t| + if els.Some? then 1 else 0);
    SameLength(thn, env, env');
    PairInert(l, r, rw);
    BranchInert(op, edge, 2 + |t| + if els.Some? then 1 else 0, rw);
    InertWalked(test, rw);
    InertWalked(branch, rw);
    StmtWalked(thn, env, subs, rw);
    var f, f', x := ElseCode(OptCode(els, env)), ElseCode(OptCode(els, env')),
          if els.Some? then Callees(els.value) else {};
    assert Walked(f, x, rw, f') by {
      if els.Some? {
        var e := els.value;
        SameLength(e, env, env');
        StmtWalked(e, env, subs, rw);
        JumpInert(|StmtCode(e, env)| + 1, rw);
        InertWalked([Word(JUMP, |StmtCode(e, env)| + 1)], rw);
        WalkedConcat([Word(JUMP, |StmtCode(e, env)| + 1)], {}, [Word(JUMP, |StmtCode(e, env)| + 1)],
                     StmtCode(e, env), x, StmtCode(e, env'), rw);
        assert {} + x == x;
      } else {
        EmptyWalked(rw);
      }
    }
    WalkedConcat(t, Callees(thn), t', f, x, f', rw);
    WalkedConcat(branch, {}, branch, t + f, Callees(thn) + x, t' + f', rw);
    WalkedConcat(test, {}, test, branch + (t + f), {} + (Callees(thn) + x), branch + (t' + f'), rw);
    assert {} + ({} + (Callees(thn) + x)) == Callees(s);
  }

  lemma EmptyWalked(rw: Rewrite)
    ensures Walked([], {}, rw, [])
  {
  }

  lemma {:induction false} WhileWalked(s: Stmt, op: BinaryOp, l: Expr, r: Expr, loop: Stmt, env: Env, subs: nat,
                                       rw: Rewrite)
    requires s == FoldedWhile(op, l, r, loop)
    requires Emittable(s, subs) && subs <= 4096 && |StmtCode(s, env)| <= 4096 && Applies(env, rw)
    requires rw.Relocate? ==> |rw.addr| == subs
    ensures Walked(StmtCode(s, env), Callees(s), rw, StmtCode(s, After(env, rw)))
    decreases s, 0
  {
    hide Walked, Inert, ExprCode, EmittableExpr, Word, BranchCode, BackArg;
    var env' := After(env, rw);
    var test, b, b' := ExprCode(l) + ExprCode(r), StmtCode(loop, env), StmtCode(loop, env');
    var branch, tail := BranchCode(op, false, 2 + |b| + 1), [Word(JUMP, BackArg(|test| + |b| + 2))];
    SameLength(loop, env, env');
    PairInert(l, r, rw);
    BranchInert(op, false, 2 + |b| + 1, rw);
    JumpInert(BackArg(|test| + |b| + 2), rw);
    InertWalked(test, rw);
    InertWalked(branch, rw);
    InertWalked(tail, rw);
    StmtWalked(loop, env, subs, rw);
    WalkedConcat(b, Callees(loop), b', tail, {}, tail, rw);
    WalkedConcat(branch, {}, branch, b + tail, Callees(loop) + {}, b' + tail, rw);
    WalkedConcat(test, {}, test, branch + (b + tail), {} + (Callees(loop) + {}), branch + (b' + tail), rw);
    assert {} + ({} + (Callees(loop) + {})) == Callees(s);
  }
}
