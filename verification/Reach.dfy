// Which ends of a statement's code control can reach, over the words: exactly those of
// statements with a completing path.
module Reach {
  import opened Words
  import opened Wrappers
  import opened Operators
  import opened Tree
  import opened Machine
  import opened Code
  import opened Segments
  import opened ExprCorrect
  import opened Heights
  import StmtSteps
  import opened Parts
  import opened Flow

  ghost predicate Path(c: seq<u16>, p: seq<nat>) {
    p != [] && forall k :: 0 <= k < |p| - 1 ==> p[k] < |c| && p[k + 1] in Successors(c, p[k])
  }

  ghost predicate Along(c: seq<u16>, p: seq<nat>, a: nat, b: nat) {
    Path(c, p) && p[0] == a && p[|p| - 1] == b
  }

  /** Some sequence of branch outcomes leads from a to b. */
  ghost predicate Reaches(c: seq<u16>, a: nat, b: nat) {
    exists p :: Along(c, p, a, b)
  }

  lemma ReachSelf(c: seq<u16>, a: nat)
    ensures Reaches(c, a, a)
  {
    assert Along(c, [a], a, a);
  }

  lemma ReachNext(c: seq<u16>, a: nat, b: nat)
    requires a < |c| && b in Successors(c, a)
    ensures Reaches(c, a, b)
  {
    hide Successors;
    assert Along(c, [a, b], a, b);
  }

  lemma ReachOn(c: seq<u16>, a: nat, b: nat, d: nat)
    requires Reaches(c, a, b) && Reaches(c, b, d)
    ensures Reaches(c, a, d)
  {
    hide Successors;
    var p, q :| Along(c, p, a, b) && Along(c, q, b, d);
    var r := p + q[1..];
    forall k | 0 <= k < |r| - 1
      ensures r[k] < |c| && r[k + 1] in Successors(c, r[k])
    {
      if k >= |p| - 1 {
        assert r[k] == q[k - (|p| - 1)] && r[k + 1] == q[k + 1 - (|p| - 1)];
      }
    }
    assert Along(c, r, a, d);
  }

  // ---------------------------------------------------------------- a completing path

  function Width(opcode: nat): nat {
    if opcode == LARGE_IMMEDIATE || opcode == LOAD_INDIRECT || opcode == STORE_INDIRECT || opcode == CONDITIONAL_BRANCH
    then 2 else if opcode == EMIT then 3 else 1
  }

  /** An instruction without jumps, and where it stands. */
  lemma PlainNext(c: seq<u16>, at: nat, x: seq<u16>, opcode: nat, arg: nat)
    requires CodeAt(c, at, x) && opcode < 15 && arg < 4096 && x != [] && x[0] == Word(opcode, arg)
    requires |x| == Width(opcode) && opcode != STOP && opcode != JUMP && opcode != CONDITIONAL_BRANCH
    requires opcode != SUB_RET
    ensures at < |c| && Successors(c, at) == {at + |x|}
  {
    WordAt(c, at, x, 0);
  }

  lemma BranchNext(c: seq<u16>, at: nat, op: BinaryOp, edge: bool, skip: nat)
    requires CodeAt(c, at, BranchCode(op, edge, skip)) && skip < 32768
    ensures at < |c| && Successors(c, at) == {at + 2, at + skip}
  {
    WordAt(c, at, BranchCode(op, edge, skip), 0);
    WordAt(c, at, BranchCode(op, edge, skip), 1);
  }

  lemma JumpNext(c: seq<u16>, at: nat, arg: nat)
    requires CodeAt(c, at, [Word(JUMP, arg)]) && arg < 4096
    ensures at < |c| && Successors(c, at) == {at + S12(arg)}
  {
    WordAt(c, at, [Word(JUMP, arg)], 0);
  }

  /** a, then an instruction without jumps. */
  lemma ThenPlain(c: seq<u16>, at: nat, a: seq<u16>, x: seq<u16>, opcode: nat, arg: nat)
    requires CodeAt(c, at, a + x) && Reaches(c, at, at + |a|)
    requires opcode < 15 && arg < 4096 && x != [] && x[0] == Word(opcode, arg) && |x| == Width(opcode)
    requires opcode != STOP && opcode != JUMP && opcode != CONDITIONAL_BRANCH && opcode != SUB_RET
    ensures Reaches(c, at, at + |a + x|)
  {
    hide Reaches, Successors, CodeAt;
    SplitAt(c, at, a, x);
    PlainNext(c, at + |a|, x, opcode, arg);
    ReachNext(c, at + |a|, at + |a| + |x|);
    ReachOn(c, at, at + |a|, at + |a| + |x|);
  }

  lemma {:induction false} ExprPasses(e: Expr, c: seq<u16>, at: nat)
    requires EmittableExpr(e) && CodeAt(c, at, ExprCode(e))
    ensures Reaches(c, at, at + |ExprCode(e)|)
    decreases ExprSize(e), 0
  {
    hide Reaches, CodeAt, Word, ImmCode, Successors;
    match e
    case Imm(v) =>
      ImmNext(v, c, at);
      ReachNext(c, at, at + |ImmCode(v)|);
    case Load(a) =>
      ReachSelf(c, at);
      assert [] + ExprCode(e) == ExprCode(e);
      ThenPlain(c, at, [], ExprCode(e), LOAD, a);
    case ArrayRead(base, size, index) =>
      SplitAt(c, at, ExprCode(index), [Word(LOAD_INDIRECT, base), U16(size)]);
      ExprPasses(index, c, at);
      ThenPlain(c, at, ExprCode(index), [Word(LOAD_INDIRECT, base), U16(size)], LOAD_INDIRECT, base);
    case Unary(op, x) =>
      SplitAt(c, at, ExprCode(x), [Word(UNARY_ARITHMETIC, op.Code())]);
      ExprPasses(x, c, at);
      ThenPlain(c, at, ExprCode(x), [Word(UNARY_ARITHMETIC, op.Code())], UNARY_ARITHMETIC, op.Code());
    case Binary(op, l, r) =>
      SplitAt(c, at, ExprCode(l) + ExprCode(r), [Word(BINARY_ARITHMETIC, op.Code())]);
      PairPasses(l, r, c, at);
      ThenPlain(c, at, ExprCode(l) + ExprCode(r), [Word(BINARY_ARITHMETIC, op.Code())], BINARY_ARITHMETIC, op.Code());
  }

  lemma ImmNext(v: int, c: seq<u16>, at: nat)
    requires CodeAt(c, at, ImmCode(v))
    ensures at < |c| && Successors(c, at) == {at + |ImmCode(v)|}
  {
    hide CodeAt, Successors;
    if -2048 < v < 2048 {
      PlainNext(c, at, ImmCode(v), SMALL_IMMEDIATE, v % 4096);
    } else {
      PlainNext(c, at, ImmCode(v), LARGE_IMMEDIATE, 0);
    }
  }

  lemma {:induction false} PairPasses(l: Expr, r: Expr, c: seq<u16>, at: nat)
    requires EmittableExpr(l) && EmittableExpr(r) && CodeAt(c, at, ExprCode(l) + ExprCode(r))
    ensures Reaches(c, at, at + |ExprCode(l) + ExprCode(r)|)
    decreases ExprSize(l) + ExprSize(r), 1
  {
    hide Reaches, CodeAt;
    SplitAt(c, at, ExprCode(l), ExprCode(r));
    ExprPasses(l, c, at);
    ExprPasses(r, c, at + |ExprCode(l)|);
    ReachOn(c, at, at + |ExprCode(l)|, at + |ExprCode(l)| + |ExprCode(r)|);
  }

  lemma TargetPasses(t: Target, c: seq<u16>, at: nat)
    requires EmittableTarget(t) && CodeAt(c, at, TargetCode(t))
    ensures Reaches(c, at, at + |TargetCode(t)|)
  {
    hide Reaches, CodeAt;
    match t
    case Store(a) =>
      PlainNext(c, at, TargetCode(t), STORE, a);
      ReachNext(c, at, at + 1);
    case ArrayWrite(base, size, index) =>
      SplitAt(c, at, ExprCode(index), [Word(STORE_INDIRECT, base), U16(size)]);
      ExprPasses(index, c, at);
      ThenPlain(c, at, ExprCode(index), [Word(STORE_INDIRECT, base), U16(size)], STORE_INDIRECT, base);
  }

  lemma {:induction false} StmtPasses(s: Stmt, env: Env, subs: nat, c: seq<u16>, at: nat)
    requires Emittable(s, subs) && subs <= 4096 && |StmtCode(s, env)| <= 2048 && CodeAt(c, at, StmtCode(s, env))
    requires MayComplete(s) && forall i :: 0 <= i < |env.calls| ==> env.calls[i] < 4096
    ensures Reaches(c, at, at + |StmtCode(s, env)|)
    decreases s, 1
  {
    hide Reaches, CodeAt, Successors, Word, ExprCode, TargetCode, EmittableExpr, EmittableTarget;
    match s
    case Block(body) => BlockPasses(body, env, subs, c, at);
    case Assign(t, e) =>
      SplitAt(c, at, ExprCode(e), TargetCode(t));
      ExprPasses(e, c, at);
      TargetPasses(t, c, at + |ExprCode(e)|);
      ReachOn(c, at, at + |ExprCode(e)|, at + |ExprCode(e)| + |TargetCode(t)|);
    case FoldedIfWhen(edge, site, op, l, r, thn, els) =>
      IfPasses(s, edge, site, op, l, r, thn, els, env, subs, c, at);
    case FoldedWhile(op, l, r, loop) => WhilePasses(op, l, r, loop, env, subs, c, at);
    case Emit(pre, event, base, size) =>
      SplitAt(c, at, BlockCode(pre, env), [Word(EMIT, event), U16(base), U16(size)]);
      BlockPasses(pre, env, subs, c, at);
      EmitPasses(BlockCode(pre, env), event, base, size, c, at);
    case CallSub(sub) => CallPasses(sub, env, c, at);
  }

  lemma EmitPasses(pre: seq<u16>, event: nat, base: nat, size: nat, c: seq<u16>, at: nat)
    requires CodeAt(c, at, pre + [Word(EMIT, event), U16(base), U16(size)]) && event < 4096
    requires Reaches(c, at, at + |pre|)
    ensures Reaches(c, at, at + |pre| + 3)
  {
    hide Reaches, CodeAt;
    ThenPlain(c, at, pre, [Word(EMIT, event), U16(base), U16(size)], EMIT, event);
  }

  lemma CallPasses(sub: nat, env: Env, c: seq<u16>, at: nat)
    requires CodeAt(c, at, [Word(SUB_CALL, CallArg(env, sub))]) && CallArg(env, sub) < 4096
    ensures Reaches(c, at, at + 1)
  {
    hide Reaches, CodeAt, CallArg;
    PlainNext(c, at, [Word(SUB_CALL, CallArg(env, sub))], SUB_CALL, CallArg(env, sub));
    ReachNext(c, at, at + 1);
  }

  lemma {:induction false} BlockPasses(ss: seq<Stmt>, env: Env, subs: nat, c: seq<u16>, at: nat)
    requires EmittableBlock(ss, subs) && subs <= 4096 && |BlockCode(ss, env)| <= 2048
    requires CodeAt(c, at, BlockCode(ss, env))
    requires BlockMayComplete(ss) && forall i :: 0 <= i < |env.calls| ==> env.calls[i] < 4096
    ensures Reaches(c, at, at + |BlockCode(ss, env)|)
    decreases ss, 0
  {
    hide Reaches, CodeAt, StmtCode;
    if ss == [] {
      ReachSelf(c, at);
    } else {
      var x := StmtCode(ss[0], env);
      SplitAt(c, at, x, BlockCode(ss[1..], env));
      StmtPasses(ss[0], env, subs, c, at);
      BlockPasses(ss[1..], env, subs, c, at + |x|);
      ReachOn(c, at, at + |x|, at + |x| + |BlockCode(ss[1..], env)|);
    }
  }

  /** Both outcomes of a test are reached from its start. */
  lemma TestPasses(l: Expr, r: Expr, op: BinaryOp, edge: bool, skip: nat, c: seq<u16>, at: nat, a: nat)
    requires EmittableExpr(l) && EmittableExpr(r) && CodeAt(c, at, ExprCode(l) + ExprCode(r)) && skip < 32768
    requires a == at + |ExprCode(l) + ExprCode(r)| && CodeAt(c, a, BranchCode(op, edge, skip))
    ensures Reaches(c, at, a + 2) && Reaches(c, at, a + skip)
  {
    hide Reaches, CodeAt, Successors, ExprCode, EmittableExpr, BranchCode;
    PairPasses(l, r, c, at);
    BranchNext(c, a, op, edge, skip);
    ReachNext(c, a, a + 2);
    ReachNext(c, a, a + skip);
    ReachOn(c, at, a, a + 2);
    ReachOn(c, at, a, a + skip);
  }

  lemma JumpPasses(c: seq<u16>, at: nat, n: nat)
    requires CodeAt(c, at, [Word(JUMP, n)]) && n < 2048
    ensures Reaches(c, at, at + n)
  {
    hide Reaches, CodeAt, Successors;
    JumpNext(c, at, n);
    JumpAhead(n);
    ReachNext(c, at, at + n);
  }

  lemma {:induction false} IfPasses(s: Stmt, edge: bool, site: nat, op: BinaryOp, l: Expr, r: Expr, thn: Stmt,
                                    els: Option<Stmt>, env: Env, subs: nat, c: seq<u16>, at: nat)
    requires s == FoldedIfWhen(edge, site, op, l, r, thn, els)
    requires Emittable(s, subs) && subs <= 4096 && |StmtCode(s, env)| <= 2048 && CodeAt(c, at, StmtCode(s, env))
    requires MayComplete(s) && forall i :: 0 <= i < |env.calls| ==> env.calls[i] < 4096
    ensures Reaches(c, at, at + |StmtCode(s, env)|)
    decreases s, 0
  {
    hide Reaches, CodeAt, Word, ExprCode, EmittableExpr, BranchCode, StmtCode, ElseCode;
    var a, n := at + |ExprCode(l) + ExprCode(r)|, |StmtCode(thn, env)|;
    var skip := 2 + n + if els.Some? then 1 else 0;
    IfParts(edge, site, op, l, r, thn, els, env, c, at, a, n);
    IfSize(edge, site, op, l, r, thn, els, env);
    TestPasses(l, r, op, edge, skip, c, at, a);
    if els.Some? {
      var e := StmtCode(els.value, env);
      if MayComplete(thn) {
        StmtPasses(thn, env, subs, c, a + 2);
        JumpPasses(c, a + 2 + n, |e| + 1);
        ReachOn(c, at, a + 2, a + 2 + n);
        ReachOn(c, at, a + 2 + n, a + 2 + n + |e| + 1);
      } else {
        StmtPasses(els.value, env, subs, c, a + skip);
        ReachOn(c, at, a + skip, a + skip + |e|);
      }
    }
  }

  lemma WhilePasses(op: BinaryOp, l: Expr, r: Expr, loop: Stmt, env: Env, subs: nat, c: seq<u16>, at: nat)
    requires Emittable(FoldedWhile(op, l, r, loop), subs) && |StmtCode(FoldedWhile(op, l, r, loop), env)| <= 2048
    requires CodeAt(c, at, StmtCode(FoldedWhile(op, l, r, loop), env))
    ensures Reaches(c, at, at + |StmtCode(FoldedWhile(op, l, r, loop), env)|)
  {
    hide Reaches, CodeAt, Successors, Word, ExprCode, EmittableExpr, BranchCode, StmtCode;
    var a, n := at + |ExprCode(l) + ExprCode(r)|, |StmtCode(loop, env)|;
    WhileParts(op, l, r, loop, env, c, at, a, n);
    WhileSize(op, l, r, loop, env);
    PairPasses(l, r, c, at);
    BranchNext(c, a, op, false, 2 + n + 1);
    ReachNext(c, a, a + 2 + n + 1);
    ReachOn(c, at, a, a + 2 + n + 1);
  }

  // ---------------------------------------------------------------- live words

  /** From a live boundary of an expression, control goes to the next one. */
  lemma {:induction false} ExprLive(e: Expr, c: seq<u16>, at: nat, a: nat) returns (b: nat)
    requires EmittableExpr(e) && CodeAt(c, at, ExprCode(e)) && a < |ExprCode(e)| && ExprHeight(e, a).Some?
    ensures at + a < |c| && Successors(c, at + a) == {at + b}
    ensures b <= |ExprCode(e)| && ExprHeight(e, b).Some?
    decreases ExprSize(e), 0
  {
    hide CodeAt, Successors, Word, ImmCode, PairHeight;
    match e
    case Imm(v) =>
      ImmNext(v, c, at);
      b := |ImmCode(v)|;
    case Load(addr) =>
      PlainNext(c, at, ExprCode(e), LOAD, addr);
      b := 1;
    case ArrayRead(base, size, index) =>
      b := WrapLive(index, [Word(LOAD_INDIRECT, base), U16(size)], LOAD_INDIRECT, base, c, at, a);
    case Unary(op, operand) =>
      b := WrapLive(operand, [Word(UNARY_ARITHMETIC, op.Code())], UNARY_ARITHMETIC, op.Code(), c, at, a);
    case Binary(op, l, r) =>
      var x, tail := ExprCode(l) + ExprCode(r), [Word(BINARY_ARITHMETIC, op.Code())];
      SplitAt(c, at, x, tail);
      if a < |x| {
        b := PairLive(l, r, c, at, a);
      } else {
        b := LastLive(c, at, x, tail, BINARY_ARITHMETIC, op.Code(), a);
      }
  }

  /** An operation on one operand. */
  lemma {:induction false} WrapLive(x: Expr, tail: seq<u16>, opcode: nat, arg: nat, c: seq<u16>, at: nat, a: nat)
    returns (b: nat)
    requires EmittableExpr(x) && CodeAt(c, at, ExprCode(x) + tail) && a <= |ExprCode(x)| && ExprHeight(x, a).Some?
    requires opcode < 9 && arg < 4096 && opcode != STOP
    requires tail != [] && tail[0] == Word(opcode, arg) && |tail| == Width(opcode)
    ensures at + a < |c| && Successors(c, at + a) == {at + b}
    ensures (b <= |ExprCode(x)| && ExprHeight(x, b).Some?) || b == |ExprCode(x)| + |tail|
    decreases ExprSize(x), 1
  {
    hide CodeAt, Successors, Word, ExprCode, ExprHeight, EmittableExpr;
    SplitAt(c, at, ExprCode(x), tail);
    if a < |ExprCode(x)| {
      b := ExprLive(x, c, at, a);
    } else {
      b := LastLive(c, at, ExprCode(x), tail, opcode, arg, a);
    }
  }

  /** The operation at the end of an expression. */
  lemma LastLive(c: seq<u16>, at: nat, x: seq<u16>, tail: seq<u16>, opcode: nat, arg: nat, a: nat) returns (b: nat)
    requires CodeAt(c, at + |x|, tail) && a == |x| && opcode < 9 && arg < 4096 && opcode != STOP
    requires tail != [] && tail[0] == Word(opcode, arg) && |tail| == Width(opcode)
    ensures b == |x| + |tail| && at + a < |c| && Successors(c, at + a) == {at + b}
  {
    hide CodeAt, Successors, Word;
    PlainNext(c, at + |x|, tail, opcode, arg);
    b := |x| + |tail|;
  }

  lemma {:induction false} PairLive(l: Expr, r: Expr, c: seq<u16>, at: nat, a: nat) returns (b: nat)
    requires EmittableExpr(l) && EmittableExpr(r) && CodeAt(c, at, ExprCode(l) + ExprCode(r))
    requires a < |ExprCode(l) + ExprCode(r)| && PairHeight(l, r, a).Some?
    ensures at + a < |c| && Successors(c, at + a) == {at + b}
    ensures b <= |ExprCode(l) + ExprCode(r)| && PairHeight(l, r, b).Some?
    decreases ExprSize(l) + ExprSize(r), 1
  {
    hide CodeAt, Successors, ExprCode, ExprHeight, EmittableExpr;
    SplitAt(c, at, ExprCode(l), ExprCode(r));
    ExprEnds(l);
    ExprEnds(r);
    if a < |ExprCode(l)| {
      b := ExprLive(l, c, at, a);
    } else {
      b := ExprLive(r, c, at + |ExprCode(l)|, a - |ExprCode(l)|);
      b := |ExprCode(l)| + b;
    }
  }

  lemma TargetLive(t: Target, c: seq<u16>, at: nat, a: nat) returns (b: nat)
    requires EmittableTarget(t) && CodeAt(c, at, TargetCode(t)) && a < |TargetCode(t)| && TargetHeight(t, a).Some?
    ensures at + a < |c| && Successors(c, at + a) == {at + b}
    ensures b <= |TargetCode(t)| && TargetHeight(t, b).Some?
  {
    hide CodeAt, Successors, Word, ExprCode;
    b := |TargetCode(t)|;
    match t
    case Store(addr) => PlainNext(c, at, TargetCode(t), STORE, addr);
    case ArrayWrite(base, size, index) =>
      var tail := [Word(STORE_INDIRECT, base), U16(size)];
      SplitAt(c, at, ExprCode(index), tail);
      ExprEnds(index);
      if a < |ExprCode(index)| {
        b := ExprLive(index, c, at, a);
      } else {
        PlainNext(c, at + a, tail, STORE_INDIRECT, base);
      }
  }

  /** From a live boundary of a statement, control goes to live boundaries only. */
  lemma {:induction false} StmtLive(s: Stmt, env: Env, subs: nat, c: seq<u16>, at: nat, a: nat, b: int)
    requires Emittable(s, subs) && |StmtCode(s, env)| <= 2048 && CodeAt(c, at, StmtCode(s, env))
    requires subs <= 4096 && forall i :: 0 <= i < |env.calls| ==> env.calls[i] < 4096
    requires a < |StmtCode(s, env)| && StmtHeight(s, env, a).Some? && at + a < |c| && at + b in Successors(c, at + a)
    ensures 0 <= b <= |StmtCode(s, env)| && StmtHeight(s, env, b).Some?
    decreases s, 2
  {
    hide CodeAt, Successors, Word, ExprCode, TargetCode, EmittableExpr, EmittableTarget, ExprHeight, TargetHeight;
    StmtEnds(s, env, subs);
    match s
    case Block(body) => BlockLive(body, env, subs, c, at, a, b);
    case Assign(t, e) => AssignLive(t, e, env, c, at, a, b);
    case FoldedIfWhen(edge, site, op, l, r, thn, els) =>
      IfLive(s, edge, site, op, l, r, thn, els, env, subs, c, at, a, b);
    case FoldedWhile(op, l, r, loop) => WhileLive(s, op, l, r, loop, env, subs, c, at, a, b);
    case Emit(pre, event, base, size) => EmitLive(s, pre, event, base, size, env, subs, c, at, a, b);
    case CallSub(sub) => PlainNext(c, at, StmtCode(s, env), SUB_CALL, CallArg(env, sub));
    case Return => ReturnNext(env, c, at);
  }

  lemma ReturnNext(env: Env, c: seq<u16>, at: nat)
    requires CodeAt(c, at, StmtCode(Return, env))
    ensures at < |c| && Successors(c, at) == {}
  {
    WordAt(c, at, StmtCode(Return, env), 0);
  }

  lemma AssignLive(t: Target, e: Expr, env: Env, c: seq<u16>, at: nat, a: nat, b: int)
    requires EmittableTarget(t) && EmittableExpr(e) && CodeAt(c, at, StmtCode(Assign(t, e), env))
    requires var s := Assign(t, e); a < |StmtCode(s, env)| && StmtHeight(s, env, a).Some?
    requires at + a < |c| && at + b in Successors(c, at + a)
    ensures var s := Assign(t, e); 0 <= b <= |StmtCode(s, env)| && StmtHeight(s, env, b).Some?
  {
    hide CodeAt, Successors, ExprCode, TargetCode, EmittableExpr, EmittableTarget, ExprHeight, TargetHeight;
    SplitAt(c, at, ExprCode(e), TargetCode(t));
    ExprEnds(e);
    TargetEnds(t);
    if a < |ExprCode(e)| {
      var d := ExprLive(e, c, at, a);
    } else {
      var d := TargetLive(t, c, at + |ExprCode(e)|, a - |ExprCode(e)|);
    }
  }

  lemma {:induction false} BlockLive(ss: seq<Stmt>, env: Env, subs: nat, c: seq<u16>, at: nat, a: nat, b: int)
    requires EmittableBlock(ss, subs) && |BlockCode(ss, env)| <= 2048 && CodeAt(c, at, BlockCode(ss, env))
    requires subs <= 4096 && forall i :: 0 <= i < |env.calls| ==> env.calls[i] < 4096
    requires a < |BlockCode(ss, env)| && BlockHeight(ss, env, a).Some?
    requires at + a < |c| && at + b in Successors(c, at + a)
    ensures 0 <= b <= |BlockCode(ss, env)| && BlockHeight(ss, env, b).Some?
    decreases ss, 0
  {
    hide CodeAt, Successors, StmtCode, StmtHeight;
    var x := StmtCode(ss[0], env);
    SplitAt(c, at, x, BlockCode(ss[1..], env));
    StmtEnds(ss[0], env, subs);
    BlockEnds(ss[1..], env, subs);
    if a < |x| {
      StmtLive(ss[0], env, subs, c, at, a, b);
    } else {
      BlockLive(ss[1..], env, subs, c, at + |x|, a - |x|, b - |x|);
    }
  }

  lemma {:induction false} EmitLive(s: Stmt, pre: seq<Stmt>, event: nat, base: nat, size: nat, env: Env, subs: nat,
                                    c: seq<u16>, at: nat, a: nat, b: int)
    requires s == Emit(pre, event, base, size)
    requires Emittable(s, subs) && |StmtCode(s, env)| <= 2048 && CodeAt(c, at, StmtCode(s, env))
    requires subs <= 4096 && forall i :: 0 <= i < |env.calls| ==> env.calls[i] < 4096
    requires a < |StmtCode(s, env)| && StmtHeight(s, env, a).Some? && at + a < |c| && at + b in Successors(c, at + a)
    ensures 0 <= b <= |StmtCode(s, env)| && StmtHeight(s, env, b).Some?
    decreases s, 1
  {
    hide CodeAt, Successors, Word;
    var x, tail := BlockCode(pre, env), [Word(EMIT, event), U16(base), U16(size)];
    SplitAt(c, at, x, tail);
    BlockEnds(pre, env, subs);
    if a < |x| {
      BlockLive(pre, env, subs, c, at, a, b);
    } else {
      PlainNext(c, at + a, tail, EMIT, event);
    }
  }

  lemma {:induction false} IfLive(s: Stmt, edge: bool, site: nat, op: BinaryOp, l: Expr, r: Expr, thn: Stmt,
                                  els: Option<Stmt>, env: Env, subs: nat, c: seq<u16>, at: nat, a: nat, b: int)
    requires s == FoldedIfWhen(edge, site, op, l, r, thn, els)
    requires Emittable(s, subs) && |StmtCode(s, env)| <= 2048 && CodeAt(c, at, StmtCode(s, env))
    requires subs <= 4096 && forall i :: 0 <= i < |env.calls| ==> env.calls[i] < 4096
    requires a < |StmtCode(s, env)| && StmtHeight(s, env, a).Some? && at + a < |c| && at + b in Successors(c, at + a)
    ensures 0 <= b <= |StmtCode(s, env)| && StmtHeight(s, env, b).Some?
    decreases s, 1
  {
    hide CodeAt, Successors, Word, ExprCode, EmittableExpr, BranchCode, StmtCode, StmtHeight, PairHeight, ElseCode;
    var x, n := |ExprCode(l) + ExprCode(r)|, |StmtCode(thn, env)|;
    var skip := 2 + n + if els.Some? then 1 else 0;
    IfParts(edge, site, op, l, r, thn, els, env, c, at, at + x, n);
    IfSize(edge, site, op, l, r, thn, els, env);
    if els.Some? { ElseSize(els.value, env); }
    StmtSteps.IfHeights(edge, site, op, l, r, thn, els, env, a);
    if a < x {
      var d := PairLive(l, r, c, at, a);
      StmtSteps.IfHeights(edge, site, op, l, r, thn, els, env, d);
    } else if a == x {
      BranchNext(c, at + x, op, edge, skip);
      StmtSteps.IfTargets(edge, site, op, l, r, thn, els, env, subs);
    } else if a < x + 2 + n {
      StmtLive(thn, env, subs, c, at + x + 2, a - x - 2, b - x - 2);
      StmtSteps.ThenInside(edge, site, op, l, r, thn, els, env, subs);
      LiveInside(thn, s, x + 2, env, b - x - 2);
    } else {
      ElseLive(s, edge, site, op, l, r, thn, els.value, env, subs, c, at, x + 2 + n, a, b);
    }
  }

  lemma LiveInside(inner: Stmt, outer: Stmt, d: nat, env: Env, o: nat)
    requires StmtSteps.Inside(inner, outer, d, env) && o <= |StmtCode(inner, env)| && StmtHeight(inner, env, o).Some?
    ensures d + o <= |StmtCode(outer, env)| && StmtHeight(outer, env, d + o).Some?
  {
    hide StmtCode, StmtHeight;
  }

  lemma {:induction false} ElseLive(s: Stmt, edge: bool, site: nat, op: BinaryOp, l: Expr, r: Expr, thn: Stmt,
                                    els: Stmt, env: Env, subs: nat, c: seq<u16>, at: nat, x: nat, a: nat, b: int)
    requires s == FoldedIfWhen(edge, site, op, l, r, thn, Some(els))
    requires x == |ExprCode(l) + ExprCode(r)| + 2 + |StmtCode(thn, env)|
    requires Emittable(s, subs) && |StmtCode(s, env)| <= 2048
    requires subs <= 4096 && forall i :: 0 <= i < |env.calls| ==> env.calls[i] < 4096
    requires CodeAt(c, at + x, [Word(JUMP, |StmtCode(els, env)| + 1)]) && CodeAt(c, at + x + 1, StmtCode(els, env))
    requires x <= a < |StmtCode(s, env)| == x + 1 + |StmtCode(els, env)| && StmtHeight(s, env, a).Some?
    requires at + a < |c| && at + b in Successors(c, at + a)
    ensures 0 <= b <= |StmtCode(s, env)| && StmtHeight(s, env, b).Some?
    decreases s, 0
  {
    hide CodeAt, Successors, Word, ExprCode, EmittableExpr, StmtCode, StmtHeight;
    var e := |StmtCode(els, env)|;
    StmtSteps.IfHeights(edge, site, op, l, r, thn, Some(els), env, a);
    if a == x {
      JumpNext(c, at + a, e + 1);
      JumpAhead(e + 1);
      StmtEnds(thn, env, subs);
      StmtEnds(s, env, subs);
    } else {
      StmtLive(els, env, subs, c, at + x + 1, a - x - 1, b - x - 1);
      StmtSteps.ElseInside(edge, site, op, l, r, thn, els, env, subs);
      LiveInside(els, s, x + 1, env, b - x - 1);
    }
  }

  lemma {:induction false} WhileLive(s: Stmt, op: BinaryOp, l: Expr, r: Expr, loop: Stmt, env: Env, subs: nat,
                                     c: seq<u16>, at: nat, a: nat, b: int)
    requires s == FoldedWhile(op, l, r, loop)
    requires Emittable(s, subs) && |StmtCode(s, env)| <= 2048 && CodeAt(c, at, StmtCode(s, env))
    requires subs <= 4096 && forall i :: 0 <= i < |env.calls| ==> env.calls[i] < 4096
    requires a < |StmtCode(s, env)| && StmtHeight(s, env, a).Some? && at + a < |c| && at + b in Successors(c, at + a)
    ensures 0 <= b <= |StmtCode(s, env)| && StmtHeight(s, env, b).Some?
    decreases s, 1
  {
    hide CodeAt, Successors, Word, ExprCode, EmittableExpr, BranchCode, StmtCode, StmtHeight, PairHeight, BackArg;
    var x, n := |ExprCode(l) + ExprCode(r)|, |StmtCode(loop, env)|;
    WhileParts(op, l, r, loop, env, c, at, at + x, n);
    WhileSize(op, l, r, loop, env);
    StmtSteps.WhileHeights(op, l, r, loop, env, a);
    StmtSteps.WhileTargets(op, l, r, loop, env, subs);
    if a < x {
      var d := PairLive(l, r, c, at, a);
      StmtSteps.WhileHeights(op, l, r, loop, env, d);
    } else if a == x {
      BranchNext(c, at + x, op, false, 2 + n + 1);
    } else if a < x + 2 + n {
      StmtLive(loop, env, subs, c, at + x + 2, a - x - 2, b - x - 2);
      StmtSteps.LoopInside(op, l, r, loop, env, subs);
      LiveInside(loop, s, x + 2, env, b - x - 2);
    } else {
      JumpNext(c, at + a, BackArg(x + n + 2));
      BackDecodes(x + n + 2);
    }
  }

  // ---------------------------------------------------------------- the end of the code

  lemma {:induction false} PathLive(s: Stmt, env: Env, subs: nat, p: seq<nat>, k: nat)
    requires Emittable(s, subs) && |StmtCode(s, env)| <= 2048
    requires subs <= 4096 && forall i :: 0 <= i < |env.calls| ==> env.calls[i] < 4096
    requires Path(StmtCode(s, env), p) && p[0] == 0 && k < |p|
    ensures p[k] <= |StmtCode(s, env)| && StmtHeight(s, env, p[k]).Some?
    decreases k
  {
    hide StmtCode, StmtHeight, Successors;
    StmtEnds(s, env, subs);
    if k > 0 {
      var c := StmtCode(s, env);
      PathLive(s, env, subs, p, k - 1);
      assert c[0..0 + |c|] == c;
      assert p[k] in Successors(c, p[k - 1]);
      StmtLive(s, env, subs, c, 0, p[k - 1], p[k]);
    }
  }

  /** Control can reach the end of a statement's code exactly when the statement has a
      completing path. */
  lemma EndReached(s: Stmt, env: Env, subs: nat)
    requires Emittable(s, subs) && |StmtCode(s, env)| <= 2048
    requires subs <= 4096 && forall i :: 0 <= i < |env.calls| ==> env.calls[i] < 4096
    ensures Reaches(StmtCode(s, env), 0, |StmtCode(s, env)|) <==> MayComplete(s)
  {
    hide StmtCode, StmtHeight, Successors, Emittable, MayComplete;
    var c := StmtCode(s, env);
    assert c[0..0 + |c|] == c;
    if MayComplete(s) {
      StmtPasses(s, env, subs, c, 0);
    }
    if Reaches(c, 0, |c|) {
      var p :| Along(c, p, 0, |c|);
      PathLive(s, env, subs, p, |p| - 1);
      StmtEnds(s, env, subs);
    }
  }

  /** A subroutine can be left at its end exactly when it is not closed: no SUB_RET is
      appended, and some path over the words goes from the first word to the end. */
  lemma OpenEndIsLive(s: Stmt, env: Env, subs: nat)
    requires Emittable(s, subs) && |StmtCode(s, env)| <= 2048
    requires subs <= 4096 && forall i :: 0 <= i < |env.calls| ==> env.calls[i] < 4096
    ensures var c := StmtCode(s, env);
            !Closed(s, env) <==> CloseSub(c) == c && Reaches(c, 0, |c|)
  {
    hide StmtCode, TypeOfLast, MayComplete, Reaches, Emittable;
    EndReached(s, env, subs);
    AppendedIsLonger(StmtCode(s, env));
  }

  lemma AppendedIsLonger(c: seq<u16>)
    ensures CloseSub(c) == c <==> TypeOfLast(c) == SUB_RET
  {
    hide TypeOfLast;
  }
}
